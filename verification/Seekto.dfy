/** The seek command in the socket protocol: the text `AESDCHAR_IOCSEEKTO:x,y` is cut into tokens in
    the receive buffer and the two numbers are decoded. `strtok_r` follows `strtok` in section
    7.24.5.8 of ISO C11, `atoi` section 7.22.1.2. */
module Seekto {
  import opened Bytes
  import opened Layout
  import opened Sessions

  const COLON: byte := 58
  const COMMA: byte := 44

  predicate IsDelimiter(b: byte) {
    b == COLON || b == COMMA
  }

  predicate IsDigit(b: byte) {
    48 <= b <= 57
  }

  function DigitOf(b: byte): nat
    requires IsDigit(b)
  {
    b - 48
  }

  predicate IsSpace(b: byte) {
    b == 32 || 9 <= b <= 13
  }

  /** A NUL lies at or after `p`. */
  ghost predicate Terminated(m: seq<byte>, p: nat) {
    exists i :: p <= i < |m| && m[i] == 0
  }

  /** The first byte at or after `p` that is no delimiter. */
  function SkipDelimiters(m: seq<byte>, p: nat): (q: nat)
    requires p <= |m|
    ensures p <= q <= |m|
    ensures forall i :: p <= i < q ==> IsDelimiter(m[i])
    ensures q < |m| ==> !IsDelimiter(m[q])
    decreases |m| - p
  {
    if p < |m| && IsDelimiter(m[p]) then SkipDelimiters(m, p + 1) else p
  }

  predicate EndsToken(b: byte) {
    b == 0 || IsDelimiter(b)
  }

  /** The first byte at or after `p` that ends a token. */
  function TokenEnd(m: seq<byte>, p: nat): (q: nat)
    requires p <= |m|
    ensures p <= q <= |m|
    ensures forall i :: p <= i < q ==> !EndsToken(m[i])
    ensures q < |m| ==> EndsToken(m[q])
    decreases |m| - p
  {
    if p < |m| && !EndsToken(m[p]) then TokenEnd(m, p + 1) else p
  }

  /** Where the token found starts and where the next search goes on. */
  datatype Token = NoToken | Token(start: nat, save: nat)

  function NextToken(m: seq<byte>, p: nat): (t: Token)
    requires p <= |m|
    ensures t.Token? ==> p <= t.start < t.save <= |m|
  {
    var s := SkipDelimiters(m, p);
    if s == |m| || m[s] == 0 then NoToken
    else
      var e := TokenEnd(m, s);
      Token(s, if e < |m| && IsDelimiter(m[e]) then e + 1 else e)
  }

  /** The buffer after the search: the delimiter that ended the token has become a NUL. */
  function Cut(m: seq<byte>, p: nat): (r: seq<byte>)
    requires p <= |m|
    ensures |r| == |m|
    ensures forall i :: 0 <= i < |m| ==> r[i] == m[i] || (r[i] == 0 && IsDelimiter(m[i]))
  {
    match NextToken(m, p)
    case NoToken => m
    case Token(s, save) =>
      var e := TokenEnd(m, s);
      if e < |m| && IsDelimiter(m[e]) then m[e := 0] else m
  }

  /** One search: it skips colons (58) and commas (44), takes the bytes up to the next one or a NUL, and
      turns the colon or comma that ends them into a NUL. There is no token if a NUL comes first. */
  lemma TokenMeaning(m: seq<byte>, p: nat)
    requires p <= |m|
    ensures match NextToken(m, p)
            case Token(s, save) =>
              && p <= s < save <= |m| && (forall i :: p <= i < s ==> m[i] == 58 || m[i] == 44)
              && var e := if save == |m| || m[save - 1] == 58 || m[save - 1] == 44 then save - 1 else save;
                 && (forall i :: s <= i < e ==> m[i] != 58 && m[i] != 44 && m[i] != 0)
                 && if m[save - 1] == 58 || m[save - 1] == 44 then s < e && Cut(m, p) == m[e := 0]
                    else Cut(m, p) == m && m[save - 1] != 0 && (save < |m| ==> m[save] == 0)
            case NoToken =>
              && Cut(m, p) == m
              && forall i :: p <= i < |m| && m[i] != 58 && m[i] != 44 ==> exists j :: p <= j <= i && m[j] == 0
  {
  }

  lemma StillTerminated(m: seq<byte>, p: nat)
    requires p <= |m| && Terminated(m, p) && NextToken(m, p).Token?
    ensures var t := NextToken(m, p);
            Terminated(Cut(m, p), t.save)
  {
    var i :| p <= i < |m| && m[i] == 0;
    var t := NextToken(m, p);
    var e := TokenEnd(m, t.start);
    assert i >= t.start && i >= e;
    assert Cut(m, p)[i] == 0;
  }

  /** The search from `p` ends inside the buffer. */
  predicate StaysInside(m: seq<byte>, p: nat)
    requires p <= |m|
  {
    var s := SkipDelimiters(m, p);
    s < |m| && (m[s] == 0 || TokenEnd(m, s) < |m|)
  }

  lemma TerminatedStaysInside(m: seq<byte>, p: nat)
    requires p <= |m| && Terminated(m, p)
    ensures StaysInside(m, p)
  {
    var i :| p <= i < |m| && m[i] == 0;
    assert SkipDelimiters(m, p) <= i;
  }

  /** `strtok_r(.., ":,", ..)` from position `p`, in place. */
  method StrtokR(buf: array<byte>, p: nat) returns (t: Token)
    requires p <= buf.Length && StaysInside(buf[..], p)
    modifies buf
    ensures t == NextToken(old(buf[..]), p)
    ensures buf[..] == Cut(old(buf[..]), p)
  {
    ghost var m := buf[..];
    var s := p;
    while IsDelimiter(buf[s])
      invariant p <= s < buf.Length
      invariant SkipDelimiters(m, s) == SkipDelimiters(m, p)
      decreases buf.Length - s
    {
      s := s + 1;
    }
    if buf[s] == 0 {
      return NoToken;
    }
    var e := s;
    while !EndsToken(buf[e])
      invariant s <= e < buf.Length
      invariant TokenEnd(m, e) == TokenEnd(m, s)
      decreases buf.Length - e
    {
      e := e + 1;
    }
    if IsDelimiter(buf[e]) {
      buf[e] := 0;
      return Token(s, e + 1);
    }
    return Token(s, e);
  }

  function SkipSpaces(m: seq<byte>, p: nat): (q: nat)
    requires p <= |m|
    ensures p <= q <= |m|
    decreases |m| - p
  {
    if p < |m| && IsSpace(m[p]) then SkipSpaces(m, p + 1) else p
  }

  /** The number that the digits from `p` on extend `acc` to. */
  function Number(m: seq<byte>, p: nat, acc: nat): nat
    requires p <= |m|
    decreases |m| - p
  {
    if p < |m| && IsDigit(m[p]) then Number(m, p + 1, acc * 10 + DigitOf(m[p])) else acc
  }

  /** `atoi` of the string at `p`; None where the value does not fit an `int`, which is undefined. */
  function Atoi(m: seq<byte>, p: nat): Option<int>
    requires p <= |m|
  {
    var s := SkipSpaces(m, p);
    var v: int :=
      if s < |m| && m[s] == 45 then 0 - Number(m, s + 1, 0)
      else if s < |m| && m[s] == 43 then Number(m, s + 1, 0)
      else Number(m, s, 0);
    if -TWO31 <= v < TWO31 then Some(v) else None
  }

  /** The request for the driver, or None where the code's behaviour is undefined: a token is
      missing (`atoi` of NULL) or a number does not fit. */
  datatype Request = Request(writeCmd: nat, writeCmdOffset: nat)

  function Decode(m: seq<byte>): Option<Request> {
    var t1 := NextToken(m, 0);
    if t1.NoToken? then None
    else
      var m1 := Cut(m, 0);
      var t2 := NextToken(m1, t1.save);
      if t2.NoToken? then None
      else
        var m2 := Cut(m1, t1.save);
        var t3 := NextToken(m2, t2.save);
        if t3.NoToken? then None
        else
          var m3 := Cut(m2, t2.save);
          match (Atoi(m2, t2.start), Atoi(m3, t3.start))
          case (Some(x), Some(y)) => Some(Request(ToUint(x), ToUint(y)))
          case _ => None
  }

  /** No search of the decoding runs off the buffer, ... */
  predicate Decodable(m: seq<byte>) {
    StaysInside(m, 0) &&
    match NextToken(m, 0)
    case NoToken => true
    case Token(_, p) =>
      var m1 := Cut(m, 0);
      StaysInside(m1, p) &&
      match NextToken(m1, p)
      case NoToken => true
      case Token(_, q) => StaysInside(Cut(m1, p), q)
  }

  /** ... as none does if there is a NUL in it. */
  lemma TerminatedIsDecodable(m: seq<byte>)
    requires Terminated(m, 0)
    ensures Decodable(m)
  {
    TerminatedStaysInside(m, 0);
    var t := NextToken(m, 0);
    if t.Token? {
      StillTerminated(m, 0);
      var m1 := Cut(m, 0);
      TerminatedStaysInside(m1, t.save);
      if NextToken(m1, t.save).Token? {
        StillTerminated(m1, t.save);
        TerminatedStaysInside(Cut(m1, t.save), NextToken(m1, t.save).save);
      }
    }
  }

  /** The receive buffer is zeroed before each chunk. */
  const BUFFER: nat := 512

  function Filled(chunk: seq<byte>): seq<byte>
    requires |chunk| <= BUFFER
  {
    chunk + seq(BUFFER - |chunk|, _ => 0)
  }

  /** Every chunk shorter than the buffer can be decoded. */
  lemma ShortIsDecodable(chunk: seq<byte>)
    requires |chunk| < BUFFER
    ensures Decodable(Filled(chunk))
  {
    assert Filled(chunk)[|chunk|] == 0;
    TerminatedIsDecodable(Filled(chunk));
  }

  /** How many tokens, from `p` on, have a delimiter behind them. */
  function TokensClosed(m: seq<byte>, p: nat): nat
    requires p <= |m|
    decreases |m| - p
  {
    if p + 1 >= |m| then 0
    else (if !IsDelimiter(m[p]) && IsDelimiter(m[p + 1]) then 1 else 0) + TokensClosed(m, p + 1)
  }

  ghost predicate NoNul(m: seq<byte>, p: nat) {
    forall i :: p <= i < |m| ==> m[i] != 0
  }

  lemma {:induction false} ClosedAfterDelimiters(m: seq<byte>, p: nat)
    requires p <= |m|
    ensures TokensClosed(m, p) == TokensClosed(m, SkipDelimiters(m, p))
    decreases |m| - p
  {
    if p < |m| && IsDelimiter(m[p]) {
      ClosedAfterDelimiters(m, p + 1);
    }
  }

  lemma {:induction false} ClosedFromToken(m: seq<byte>, s: nat)
    requires s < |m| && !IsDelimiter(m[s]) && NoNul(m, s)
    ensures var e := TokenEnd(m, s);
            TokensClosed(m, s) == if e < |m| then 1 + TokensClosed(m, e + 1) else 0
    decreases |m| - s
  {
    if s + 1 < |m| {
      if IsDelimiter(m[s + 1]) {
        assert TokenEnd(m, s) == s + 1;
      } else {
        ClosedFromToken(m, s + 1);
      }
    }
  }

  lemma {:induction false} ClosedSame(a: seq<byte>, b: seq<byte>, p: nat)
    requires p <= |a| == |b| && forall i :: p <= i < |a| ==> a[i] == b[i]
    ensures TokensClosed(a, p) == TokensClosed(b, p)
    decreases |a| - p
  {
    if p < |a| {
      ClosedSame(a, b, p + 1);
    }
  }

  /** Without a NUL ahead a search needs one closed token, and uses it up. */
  lemma SearchCloses(m: seq<byte>, p: nat)
    requires p <= |m| && NoNul(m, p)
    ensures StaysInside(m, p) <==> TokensClosed(m, p) >= 1
    ensures StaysInside(m, p) ==>
              && NextToken(m, p).Token?
              && var q := NextToken(m, p).save;
                 NoNul(Cut(m, p), q) && TokensClosed(m, p) == 1 + TokensClosed(Cut(m, p), q)
  {
    var s := SkipDelimiters(m, p);
    ClosedAfterDelimiters(m, p);
    if s < |m| {
      ClosedFromToken(m, s);
      if StaysInside(m, p) {
        ClosedSame(m, Cut(m, p), NextToken(m, p).save);
      }
    }
  }

  /** What the decoding of a chunk requires, to be read off its bytes: a NUL somewhere, or three tokens
      with a delimiter behind each. */
  lemma DecodableIff(m: seq<byte>)
    ensures Decodable(m) <==> Terminated(m, 0) || TokensClosed(m, 0) >= 3
  {
    if Terminated(m, 0) {
      TerminatedIsDecodable(m);
    } else {
      assert NoNul(m, 0);
      SearchCloses(m, 0);
      if StaysInside(m, 0) {
        var m1, p := Cut(m, 0), NextToken(m, 0).save;
        SearchCloses(m1, p);
        if StaysInside(m1, p) {
          SearchCloses(Cut(m1, p), NextToken(m1, p).save);
        }
      }
    }
  }

  /** A chunk that fails it: the keyword, a colon, and digits up to the end of the buffer. */
  lemma FullChunkRunsOff()
    ensures var m := KEYWORD + [COLON] + seq(BUFFER - |KEYWORD| - 1, _ => 48);
            |m| == BUFFER && IsSeekto(m) && !Decodable(m)
  {
    var rest: seq<byte> := seq(BUFFER - |KEYWORD| - 1, _ => 48);
    var m := KEYWORD + [COLON] + rest;
    KeywordIsToken(KEYWORD);
    assert m == [] + KEYWORD + [COLON] + rest;
    TokenFound(m, [], KEYWORD, COLON, rest);
    var m1, p := Cut(m, 0), |KEYWORD| + 1;
    assert m1 == KEYWORD + [0] + rest;
    assert forall i :: p <= i < |m1| ==> m1[i] == 48;
    assert !StaysInside(m1, p);
  }

  /** The decoding in `connection_handler`. Only delimiters are overwritten, so the search for a
      newline that follows finds what it would have found in the received bytes. */
  method DecodeSeekto(buf: array<byte>) returns (r: Option<Request>)
    requires Decodable(buf[..])
    modifies buf
    ensures r == Decode(old(buf[..]))
    ensures forall n :: 0 <= n <= buf.Length ==> (10 in buf[..n] <==> 10 in old(buf[..n]))
  {
    ghost var m := buf[..];
    var token := StrtokR(buf, 0);
    OnlyDelimitersCut(m, m, buf[..]);
    if token.NoToken? {
      return None;
    }
    ghost var m1 := buf[..];
    var token2 := StrtokR(buf, token.save);
    OnlyDelimitersCut(m, m1, buf[..]);
    if token2.NoToken? {
      return None;
    }
    ghost var m2 := buf[..];
    var cmdOffset := Atoi(buf[..], token2.start);
    var token3 := StrtokR(buf, token2.save);
    OnlyDelimitersCut(m, m2, buf[..]);
    if token3.NoToken? {
      return None;
    }
    var cmdCharOffset := Atoi(buf[..], token3.start);
    if cmdOffset.None? || cmdCharOffset.None? {
      return None;
    }
    return Some(Request(ToUint(cmdOffset.value), ToUint(cmdCharOffset.value)));
  }

  /** `b` is `a` with some delimiters turned into NULs. */
  ghost predicate CutOf(a: seq<byte>, b: seq<byte>) {
    |a| == |b| && forall i :: 0 <= i < |a| ==> b[i] == a[i] || (b[i] == 0 && IsDelimiter(a[i]))
  }

  lemma OnlyDelimitersCut(a: seq<byte>, b: seq<byte>, c: seq<byte>)
    requires CutOf(a, b) && CutOf(b, c)
    ensures CutOf(a, c)
    ensures forall n :: 0 <= n <= |a| ==> (10 in c[..n] <==> 10 in a[..n])
  {
    forall n | 0 <= n <= |a|
      ensures 10 in c[..n] <==> 10 in a[..n]
    {
      if 10 in a[..n] {
        var i :| 0 <= i < n && a[..n][i] == 10;
        assert c[..n][i] == 10;
      }
      if 10 in c[..n] {
        var i :| 0 <= i < n && c[..n][i] == 10;
        assert a[..n][i] == 10;
      }
    }
  }

  // ----- the round trip -----

  /** `n` printed in decimal. */
  function Decimal(n: nat): (s: seq<byte>)
    ensures s != [] && forall i :: 0 <= i < |s| ==> IsDigit(s[i])
  {
    if n < 10 then [48 + n] else Decimal(n / 10) + [48 + n % 10]
  }

  function Value(digits: seq<byte>, acc: nat): nat
    requires forall i :: 0 <= i < |digits| ==> IsDigit(digits[i])
  {
    if digits == [] then acc else Value(digits[1..], acc * 10 + DigitOf(digits[0]))
  }

  lemma {:induction false} ValueSnoc(s: seq<byte>, d: byte, acc: nat)
    requires IsDigit(d) && forall i :: 0 <= i < |s| ==> IsDigit(s[i])
    ensures Value(s + [d], acc) == Value(s, acc) * 10 + DigitOf(d)
  {
    if s == [] {
      assert [] + [d] == [d];
    } else {
      assert (s + [d])[1..] == s[1..] + [d];
      ValueSnoc(s[1..], d, acc * 10 + DigitOf(s[0]));
    }
  }

  lemma {:induction false} DecimalValue(n: nat)
    ensures Value(Decimal(n), 0) == n
  {
    if n >= 10 {
      DecimalValue(n / 10);
      ValueSnoc(Decimal(n / 10), 48 + n % 10, 0);
    } else {
      assert Decimal(n)[1..] == [];
    }
  }

  lemma {:induction false} NumberIs(m: seq<byte>, p: nat, digits: seq<byte>, acc: nat)
    requires p + |digits| < |m| && m[p..p + |digits|] == digits && !IsDigit(m[p + |digits|])
    requires forall i :: 0 <= i < |digits| ==> IsDigit(digits[i])
    ensures Number(m, p, acc) == Value(digits, acc)
    decreases |digits|
  {
    if digits != [] {
      assert m[p] == digits[0];
      assert m[p + 1..p + 1 + |digits[1..]|] == digits[1..];
      NumberIs(m, p + 1, digits[1..], acc * 10 + DigitOf(digits[0]));
    }
  }

  /** The value of a signed number, if it fits an `int`. */
  function Fitting(sign: seq<byte>, n: nat): Option<int> {
    var v: int := if sign == [45] then 0 - n else n;
    if -0x8000_0000 <= v < 0x8000_0000 then Some(v) else None
  }

  lemma {:induction false} SpacesSkipped(m: seq<byte>, p: nat, q: nat)
    requires p <= q < |m| && !IsSpace(m[q])
    requires forall i :: p <= i < q ==> IsSpace(m[i])
    ensures SkipSpaces(m, p) == q
    decreases q - p
  {
    if p < q {
      SpacesSkipped(m, p + 1, q);
    }
  }

  /** The digits of `n` at `p` are read as `n`. */
  lemma DigitsAt(m: seq<byte>, p: nat, n: nat)
    requires var d := Decimal(n);
             p + |d| < |m| && m[p..p + |d|] == d && !IsDigit(m[p + |d|])
    ensures Number(m, p, 0) == n && IsDigit(m[p])
  {
    var d := Decimal(n);
    assert m[p] == d[0];
    NumberIs(m, p, d, 0);
    DecimalValue(n);
  }

  lemma AtoiAt(m: seq<byte>, p: nat, spaces: seq<byte>, sign: seq<byte>, n: nat)
    requires var d := Decimal(n);
             var s := p + |spaces| + |sign|;
             && s + |d| < |m| && m[p..p + |spaces|] == spaces && m[p + |spaces|..s] == sign
             && m[s..s + |d|] == d && !IsDigit(m[s + |d|])
    requires forall c :: c in spaces ==> IsSpace(c)
    requires sign == [] || sign == [43] || sign == [45]
    ensures Atoi(m, p) == Fitting(sign, n)
  {
    var q := p + |spaces|;
    forall i | p <= i < q
      ensures IsSpace(m[i])
    {
      assert m[i] == spaces[i - p];
    }
    DigitsAt(m, q + |sign|, n);
    if sign != [] {
      assert m[q] == sign[0];
    }
    SpacesSkipped(m, p, q);
    AtoiFrom(m, p, q, sign, n);
  }

  /** Past the white space: a sign if there is one, and the digits. */
  lemma AtoiFrom(m: seq<byte>, p: nat, q: nat, sign: seq<byte>, n: nat)
    requires p <= q && q + |sign| < |m| && SkipSpaces(m, p) == q
    requires sign == [] || ((sign == [43] || sign == [45]) && m[q] == sign[0])
    requires Number(m, q + |sign|, 0) == n && IsDigit(m[q + |sign|])
    ensures Atoi(m, p) == Fitting(sign, n)
  {
  }

  /** `atoi`: white space (ASCII 9 to 13 and 32), a plus (43) or minus (45) or neither, and the digits of
      `n` up to a byte that is no digit are read as `n` or minus `n`, exactly if that fits an `int`;
      beyond that `atoi` is undefined. */
  lemma AtoiMeaning(before: seq<byte>, spaces: seq<byte>, sign: seq<byte>, n: nat, e: byte, rest: seq<byte>)
    requires forall c :: c in spaces ==> 9 <= c <= 13 || c == 32
    requires sign == [] || sign == [43] || sign == [45]
    requires !(48 <= e <= 57)
    ensures var v: int := if sign == [45] then 0 - n else n;
            Atoi(before + (spaces + sign + Decimal(n)) + [e] + rest, |before|) ==
            if -0x8000_0000 <= v < 0x8000_0000 then Some(v) else None
  {
    var m, p := before + (spaces + sign + Decimal(n)) + [e] + rest, |before|;
    var s, d := p + |spaces| + |sign|, Decimal(n);
    assert m[p..p + |spaces|] == spaces;
    assert m[p + |spaces|..s] == sign;
    assert m[s..s + |d|] == d;
    assert m[s + |d|] == e;
    AtoiAt(m, p, spaces, sign, n);
  }

  /** Without digits it is 0. */
  lemma AtoiOfNoDigits(before: seq<byte>, spaces: seq<byte>, e: byte, rest: seq<byte>)
    requires forall c :: c in spaces ==> 9 <= c <= 13 || c == 32
    requires !(48 <= e <= 57) && !(9 <= e <= 13) && e != 32 && e != 43 && e != 45
    ensures Atoi(before + spaces + [e] + rest, |before|) == Some(0)
  {
    var m, p := before + spaces + [e] + rest, |before|;
    forall i | p <= i < p + |spaces|
      ensures IsSpace(m[i])
    {
      assert m[i] == spaces[i - p] && spaces[i - p] in spaces;
    }
    assert m[p + |spaces|] == e;
    SpacesSkipped(m, p, p + |spaces|);
  }

  lemma TokenEndIs(m: seq<byte>, p: nat, q: nat)
    requires p <= q < |m| && EndsToken(m[q])
    requires forall i :: p <= i < q ==> !EndsToken(m[i])
    ensures TokenEnd(m, p) == q
  {
  }

  /** A token up to a delimiter is found, and the delimiter becomes a NUL. */
  lemma TokenFound(m: seq<byte>, before: seq<byte>, token: seq<byte>, d: byte, rest: seq<byte>)
    requires m == before + token + [d] + rest && IsToken(token) && EndsToken(d)
    ensures var p, q := |before|, |before| + |token|;
            && NextToken(m, p) == Token(p, if IsDelimiter(d) then q + 1 else q)
            && Cut(m, p) == before + token + [0] + rest
  {
    var p, q := |before|, |before| + |token|;
    forall i | p <= i < q
      ensures !EndsToken(m[i])
    {
      assert m[i] == token[i - p];
    }
    assert m[q] == d;
    assert SkipDelimiters(m, p) == p;
    TokenEndIs(m, p, q);
  }

  predicate IsToken(t: seq<byte>) {
    t != [] && forall i :: 0 <= i < |t| ==> !EndsToken(t[i])
  }

  /** Three tokens with single separators between them, and zeros behind. */
  function Text(a: seq<byte>, s: byte, b: seq<byte>, t: byte, c: seq<byte>, pad: seq<byte>): seq<byte> {
    a + [s] + b + [t] + c + pad
  }

  lemma FirstToken(a: seq<byte>, b: seq<byte>, c: seq<byte>, pad: seq<byte>)
    requires IsToken(a)
    ensures var m := Text(a, COLON, b, COMMA, c, pad);
            NextToken(m, 0) == Token(0, |a| + 1) && Cut(m, 0) == Text(a, 0, b, COMMA, c, pad)
  {
    var rest := b + [COMMA] + c + pad;
    assert Text(a, COLON, b, COMMA, c, pad) == [] + a + [COLON] + rest;
    assert Text(a, 0, b, COMMA, c, pad) == [] + a + [0] + rest;
    TokenFound([] + a + [COLON] + rest, [], a, COLON, rest);
  }

  lemma SecondToken(a: seq<byte>, b: seq<byte>, c: seq<byte>, pad: seq<byte>)
    requires IsToken(b)
    ensures var m, p := Text(a, 0, b, COMMA, c, pad), |a| + 1;
            NextToken(m, p) == Token(p, p + |b| + 1) && Cut(m, p) == Text(a, 0, b, 0, c, pad)
  {
    var before, rest := a + [0], c + pad;
    assert Text(a, 0, b, COMMA, c, pad) == before + b + [COMMA] + rest;
    assert Text(a, 0, b, 0, c, pad) == before + b + [0] + rest;
    TokenFound(before + b + [COMMA] + rest, before, b, COMMA, rest);
  }

  lemma ThirdToken(a: seq<byte>, b: seq<byte>, c: seq<byte>, pad: seq<byte>)
    requires IsToken(c) && pad != [] && pad[0] == 0
    ensures var m, p := Text(a, 0, b, 0, c, pad), |a| + |b| + 2;
            NextToken(m, p) == Token(p, p + |c|) && Cut(m, p) == m
  {
    var before, rest := a + [0] + b + [0], pad[1..];
    assert pad == [0] + rest;
    assert Text(a, 0, b, 0, c, pad) == before + c + [0] + rest;
    TokenFound(before + c + [0] + rest, before, c, 0, rest);
  }

  /** Decoding three well-separated tokens decodes the second and the third. */
  lemma DecodeText(m: seq<byte>, a: seq<byte>, b: seq<byte>, c: seq<byte>, pad: seq<byte>,
                   x: Option<int>, y: Option<int>)
    requires IsToken(a) && IsToken(b) && IsToken(c) && pad != [] && pad[0] == 0
    requires m == Text(a, COLON, b, COMMA, c, pad)
    requires x == Atoi(Text(a, 0, b, 0, c, pad), |a| + 1)
    requires y == Atoi(Text(a, 0, b, 0, c, pad), |a| + |b| + 2)
    ensures Decode(m) == if x.Some? && y.Some? then Some(Request(ToUint(x.value), ToUint(y.value))) else None
  {
    FirstToken(a, b, c, pad);
    SecondToken(a, b, c, pad);
    ThirdToken(a, b, c, pad);
    var p, q := |a| + 1, |a| + |b| + 2;
    DecodeSteps(m, Text(a, 0, b, COMMA, c, pad), Text(a, 0, b, 0, c, pad), p, q, q + |c|, x, y);
  }

  /** Decoding, given what each search finds and leaves. */
  lemma DecodeSteps(m: seq<byte>, m1: seq<byte>, m2: seq<byte>, p: nat, q: nat, end: nat,
                    x: Option<int>, y: Option<int>)
    requires p < q < end <= |m| == |m1| == |m2|
    requires NextToken(m, 0) == Token(0, p) && Cut(m, 0) == m1
    requires NextToken(m1, p) == Token(p, q) && Cut(m1, p) == m2
    requires NextToken(m2, q) == Token(q, end) && Cut(m2, q) == m2
    requires x == Atoi(m2, p) && y == Atoi(m2, q)
    ensures Decode(m) == if x.Some? && y.Some? then Some(Request(ToUint(x.value), ToUint(y.value))) else None
  {
  }

  /** What a client writes for a number. */
  function Numeral(spaces: seq<byte>, sign: seq<byte>, n: nat): seq<byte> {
    spaces + sign + Decimal(n)
  }

  lemma NumeralIsToken(spaces: seq<byte>, sign: seq<byte>, n: nat)
    requires forall c :: c in spaces ==> 9 <= c <= 13 || c == 32
    requires sign == [] || sign == [43] || sign == [45]
    ensures IsToken(Numeral(spaces, sign, n)) && IsToken(Numeral(spaces, sign, n) + [10])
  {
    forall c | c in Numeral(spaces, sign, n)
      ensures !EndsToken(c)
    {
      assert c in spaces || c in sign || c in Decimal(n);
    }
  }

  lemma FirstNumber(a: seq<byte>, spaces: seq<byte>, sign: seq<byte>, x: nat, d: seq<byte>, pad: seq<byte>)
    requires forall c :: c in spaces ==> 9 <= c <= 13 || c == 32
    requires sign == [] || sign == [43] || sign == [45]
    ensures Atoi(Text(a, 0, Numeral(spaces, sign, x), 0, d, pad), |a| + 1) == Fitting(sign, x)
  {
    var before, rest, b := a + [0], d + pad, Numeral(spaces, sign, x);
    assert Text(a, 0, b, 0, d, pad) == before + b + [0] + rest;
    AtoiMeaning(before, spaces, sign, x, 0, rest);
  }

  lemma SecondNumber(a: seq<byte>, b: seq<byte>, spaces: seq<byte>, sign: seq<byte>, y: nat, pad: seq<byte>)
    requires forall c :: c in spaces ==> 9 <= c <= 13 || c == 32
    requires sign == [] || sign == [43] || sign == [45]
    ensures Atoi(Text(a, 0, b, 0, Numeral(spaces, sign, y) + [10], pad), |a| + |b| + 2) == Fitting(sign, y)
  {
    var before, c := a + [0] + b + [0], Numeral(spaces, sign, y);
    assert Text(a, 0, b, 0, c + [10], pad) == before + c + [10] + pad;
    AtoiMeaning(before, spaces, sign, y, 10, pad);
  }

  /** The unsigned 32-bit number that an `int` becomes. */
  lemma UnsignedOf(v: int)
    requires -0x8000_0000 <= v < 0x8000_0000
    ensures ToUint(v) == if v < 0 then v + 0x1_0000_0000 else v
  {
  }

  lemma KeywordIsToken(keyword: seq<byte>)
    requires keyword == [65, 69, 83, 68, 67, 72, 65, 82, 95, 73, 79, 67, 83, 69, 69, 75, 84, 79]
    ensures IsToken(keyword)
  {
  }

  /** What decoding two numbers comes to, a negative one becoming the unsigned one 2^32 larger. */
  function Requested(sign1: seq<byte>, x: nat, sign2: seq<byte>, y: nat): Option<Request> {
    var v: int, w: int := if sign1 == [45] then 0 - x else x, if sign2 == [45] then 0 - y else y;
    if -0x8000_0000 <= v < 0x8000_0000 && -0x8000_0000 <= w < 0x8000_0000
    then Some(Request(if v < 0 then v + 0x1_0000_0000 else v, if w < 0 then w + 0x1_0000_0000 else w))
    else None
  }

  lemma DecodeNumerals(a: seq<byte>, spaces1: seq<byte>, sign1: seq<byte>, x: nat,
                       spaces2: seq<byte>, sign2: seq<byte>, y: nat, pad: seq<byte>)
    requires forall c :: c in spaces1 ==> 9 <= c <= 13 || c == 32
    requires forall c :: c in spaces2 ==> 9 <= c <= 13 || c == 32
    requires sign1 == [] || sign1 == [43] || sign1 == [45]
    requires sign2 == [] || sign2 == [43] || sign2 == [45]
    requires IsToken(a) && pad != [] && pad[0] == 0
    ensures Decode(a + [58] + (spaces1 + sign1 + Decimal(x)) +
                   [44] + (spaces2 + sign2 + Decimal(y) + [10]) + pad) == Requested(sign1, x, sign2, y)
  {
    var b, c := Numeral(spaces1, sign1, x), Numeral(spaces2, sign2, y);
    NumeralIsToken(spaces1, sign1, x);
    NumeralIsToken(spaces2, sign2, y);
    FirstNumber(a, spaces1, sign1, x, c + [10], pad);
    SecondNumber(a, b, spaces2, sign2, y, pad);
    DecodeText(Text(a, 58, b, 44, c + [10], pad), a, b, c + [10], pad, Fitting(sign1, x), Fitting(sign2, y));
    TextIs(a, b, c + [10], pad);
    RequestedIs(sign1, x, sign2, y);
  }

  lemma RequestedIs(sign1: seq<byte>, x: nat, sign2: seq<byte>, y: nat)
    ensures var v, w := Fitting(sign1, x), Fitting(sign2, y);
            Requested(sign1, x, sign2, y) ==
            if v.Some? && w.Some? then Some(Request(ToUint(v.value), ToUint(w.value))) else None
  {
    var v, w := Fitting(sign1, x), Fitting(sign2, y);
    if v.Some? && w.Some? {
      UnsignedOf(v.value);
      UnsignedOf(w.value);
    }
  }

  /** The seek command in general: the keyword, a colon, a number, a comma, a number, a newline, with
      white space and signs before the numbers. It decodes exactly if both numbers fit an `int`, and
      then to these numbers, a negative one as the unsigned one that is 2^32 larger. */
  lemma SeektoMeaning(keyword: seq<byte>, spaces1: seq<byte>, sign1: seq<byte>, x: nat,
                      spaces2: seq<byte>, sign2: seq<byte>, y: nat, pad: seq<byte>)
    requires keyword == [65, 69, 83, 68, 67, 72, 65, 82, 95, 73, 79, 67, 83, 69, 69, 75, 84, 79]
    requires forall c :: c in spaces1 ==> 9 <= c <= 13 || c == 32
    requires forall c :: c in spaces2 ==> 9 <= c <= 13 || c == 32
    requires sign1 == [] || sign1 == [43] || sign1 == [45]
    requires sign2 == [] || sign2 == [43] || sign2 == [45]
    requires pad != [] && pad[0] == 0
    ensures var v: int, w: int := if sign1 == [45] then 0 - x else x, if sign2 == [45] then 0 - y else y;
            Decode(keyword + [58] + (spaces1 + sign1 + Decimal(x)) +
                   [44] + (spaces2 + sign2 + Decimal(y) + [10]) + pad) ==
            if -0x8000_0000 <= v < 0x8000_0000 && -0x8000_0000 <= w < 0x8000_0000
            then Some(Request(if v < 0 then v + 0x1_0000_0000 else v, if w < 0 then w + 0x1_0000_0000 else w))
            else None
  {
    KeywordIsToken(keyword);
    DecodeNumerals(keyword, spaces1, sign1, x, spaces2, sign2, y, pad);
    RequestedValue(sign1, x, sign2, y);
  }

  lemma RequestedValue(sign1: seq<byte>, x: nat, sign2: seq<byte>, y: nat)
    ensures var v: int, w: int := if sign1 == [45] then 0 - x else x, if sign2 == [45] then 0 - y else y;
            Requested(sign1, x, sign2, y) ==
            if -0x8000_0000 <= v < 0x8000_0000 && -0x8000_0000 <= w < 0x8000_0000
            then Some(Request(if v < 0 then v + 0x1_0000_0000 else v, if w < 0 then w + 0x1_0000_0000 else w))
            else None
  {
  }

  lemma TextIs(a: seq<byte>, b: seq<byte>, c: seq<byte>, pad: seq<byte>)
    ensures Text(a, 58, b, 44, c, pad) == a + [58] + b + [44] + c + pad
  {
  }

  /** Round trip: the command as clients print it decodes to the numbers printed exactly when both are
      below 2^31; beyond that `atoi` is undefined. It is recognised as a seek command, no search of its
      decoding runs off the buffer, and its newline ends the session's receive loop. */
  lemma SeektoRoundTrip(keyword: seq<byte>, x: nat, y: nat, pad: seq<byte>)
    requires keyword == [65, 69, 83, 68, 67, 72, 65, 82, 95, 73, 79, 67, 83, 69, 69, 75, 84, 79]
    requires pad != [] && pad[0] == 0
    ensures var text := keyword + [58] + Decimal(x) + [44] + Decimal(y) + [10];
            && IsSeekto(text) && HasNewline(text) && Decodable(text + pad)
            && Decode(text + pad) == if x < 0x8000_0000 && y < 0x8000_0000 then Some(Request(x, y)) else None
  {
    var d, e := Decimal(x), Decimal(y);
    TextRegrouped(keyword, d, e, pad);
    var text := keyword + [58] + d + [44] + e + [10];
    TerminatedIsDecodable(text + pad);
    SeektoMeaning(keyword, [], [], x, [], [], y, pad);
    NoPrefix(d);
    NoPrefix(e);
    StartsWithKeyword(keyword, text);
  }

  lemma NoPrefix(d: seq<byte>)
    ensures [] + [] + d == d
  {
  }

  lemma StartsWithKeyword(keyword: seq<byte>, text: seq<byte>)
    requires keyword == [65, 69, 83, 68, 67, 72, 65, 82, 95, 73, 79, 67, 83, 69, 69, 75, 84, 79]
    requires |text| > 18 && text[..18] == keyword && text[|text| - 1] == 10
    ensures IsSeekto(text) && HasNewline(text)
  {
  }

  lemma TextRegrouped(a: seq<byte>, d: seq<byte>, e: seq<byte>, pad: seq<byte>)
    requires pad != [] && pad[0] == 0
    ensures var text := a + [58] + d + [44] + e + [10];
            && text + pad == a + [58] + d + [44] + (e + [10]) + pad
            && text[..|a|] == a && |text| > |a| && text[|text| - 1] == 10
            && Terminated(text + pad, 0)
  {
    var text := a + [58] + d + [44] + e + [10];
    assert (text + pad)[|text|] == 0;
  }

  /** For one: "AESDCHAR_IOCSEEKTO:12,305" names byte 305 of command 12. */
  lemma SeektoExample()
    ensures Decode([65, 69, 83, 68, 67, 72, 65, 82, 95, 73, 79, 67, 83, 69, 69, 75, 84, 79,
                    58, 49, 50, 44, 51, 48, 53, 10, 0]) == Some(Request(12, 305))
  {
    var keyword: seq<byte> := [65, 69, 83, 68, 67, 72, 65, 82, 95, 73, 79, 67, 83, 69, 69, 75, 84, 79];
    SeektoRoundTrip(keyword, 12, 305, [0]);
    DecimalOf(12, 305);
    ExampleText(keyword);
  }

  lemma DecimalOf(x: nat, y: nat)
    requires x == 12 && y == 305
    ensures Decimal(x) == [49, 50] && Decimal(y) == [51, 48, 53]
  {
    assert Decimal(1) == [49] && Decimal(3) == [51];
    assert Decimal(30) == [51, 48];
  }

  lemma ExampleText(keyword: seq<byte>)
    requires keyword == [65, 69, 83, 68, 67, 72, 65, 82, 95, 73, 79, 67, 83, 69, 69, 75, 84, 79]
    ensures keyword + [58] + [49, 50] + [44] + [51, 48, 53] + [10] + [0] ==
            [65, 69, 83, 68, 67, 72, 65, 82, 95, 73, 79, 67, 83, 69, 69, 75, 84, 79,
             58, 49, 50, 44, 51, 48, 53, 10, 0]
  {
  }
}
