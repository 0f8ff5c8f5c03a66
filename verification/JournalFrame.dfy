/** The journal frame codec of rust/src/journal_frame.rs: a chunk container inside a versioned
    frame header, decoded fail-closed. */
module JournalFrame {
  import opened Values

  type Bytes = seq<Byte>

  datatype Result<+T, +E> = Ok(value: T) | Err(error: E)

  const SENTINEL: Byte := 0x89
  const MAGIC: Bytes := [0x52, 0x4A, 0x50, 0x00]
  const CONTAINER_V1: Byte := 1
  const CONTAINER_HEADER_LEN := 10
  const MAX_CONTAINER_CHUNKS := 65_536
  const FRAME_FORMAT_V1: Byte := 1
  const FRAME_FORMAT_V2: Byte := 2
  const U32 := 0x1_0000_0000
  const U64 := 0x1_0000_0000_0000_0000

  datatype EncodeError =
    | ENoChunks | ETooManyChunks(n: nat) | EChunkTooLarge(n: nat) | EEmptyChunk
    | ERunIdTooLong(n: nat) | EEmptyFrameWithPayload

  datatype DecodeError =
    | MissingSentinel | Truncated | InvalidMagic | UnknownVersion(v: Byte)
    | NoChunks | TooManyChunks(n: nat) | EmptyChunk | TrailingBytes(n: nat)
    | UnknownFormat(v: Byte) | UnknownKind(v: Byte) | UnknownFlags(v: Byte) | RunIdNotUtf8 | EmptyFrameWithPayload

  // ---- little-endian integers ----

  function Power(k: nat): nat {
    if k == 0 then 1 else 256 * Power(k - 1)
  }

  function Le(n: nat, k: nat): (b: Bytes)
    requires n < Power(k)
    ensures |b| == k
  {
    if k == 0 then [] else [n % 256] + Le(n / 256, k - 1)
  }

  function FromLe(b: Bytes): nat {
    if b == [] then 0 else b[0] + 256 * FromLe(b[1..])
  }

  lemma {:induction false} LeRoundTrip(n: nat, k: nat)
    requires n < Power(k)
    ensures FromLe(Le(n, k)) == n
  {
    if k > 0 {
      LeRoundTrip(n / 256, k - 1);
      assert Le(n, k)[1..] == Le(n / 256, k - 1);
    }
  }

  lemma {:induction false} FromLeRoundTrip(b: Bytes)
    ensures FromLe(b) < Power(|b|) && Le(FromLe(b), |b|) == b
  {
    if b != [] {
      FromLeRoundTrip(b[1..]);
      assert FromLe(b) / 256 == FromLe(b[1..]) && FromLe(b) % 256 == b[0];
      assert b == [b[0]] + b[1..];
    }
  }

  lemma Powers()
    ensures Power(4) == U32 && Power(8) == U64
  {
    assert Power(2) == 65536 && Power(3) == 16777216;
    assert Power(5) == 256 * U32;
    assert Power(6) == 256 * Power(5);
  }

  function Le4(n: nat): (b: Bytes)
    requires n < U32
    ensures |b| == 4 && FromLe(b) == n
  {
    Powers();
    LeRoundTrip(n, 4);
    Le(n, 4)
  }

  function Le8(n: nat): (b: Bytes)
    requires n < U64
    ensures |b| == 8 && FromLe(b) == n
  {
    Powers();
    LeRoundTrip(n, 8);
    Le(n, 8)
  }

  lemma Le4Back(b: Bytes)
    requires |b| == 4
    ensures FromLe(b) < U32 && Le4(FromLe(b)) == b
  {
    Powers();
    FromLeRoundTrip(b);
  }

  lemma Le8Back(b: Bytes)
    requires |b| == 8
    ensures FromLe(b) < U64 && Le8(FromLe(b)) == b
  {
    Powers();
    FromLeRoundTrip(b);
  }

  // ---- the chunk container ----

  predicate ValidChunk(c: Bytes) {
    0 < |c| < U32
  }

  ghost predicate ValidChunks(cs: seq<Bytes>) {
    1 <= |cs| <= MAX_CONTAINER_CHUNKS && forall i :: 0 <= i < |cs| ==> ValidChunk(cs[i])
  }

  ghost function Body(cs: seq<Bytes>): Bytes
    requires forall i :: 0 <= i < |cs| ==> ValidChunk(cs[i])
  {
    if cs == [] then [] else assert ValidChunk(cs[0]); Le4(|cs[0]|) + cs[0] + Body(cs[1..])
  }

  function Prefix(count: nat): (b: Bytes)
    requires count < U32
    ensures |b| == CONTAINER_HEADER_LEN
  {
    [SENTINEL] + MAGIC + [CONTAINER_V1] + Le4(count)
  }

  /** The bytes of a container. */
  ghost function Container(cs: seq<Bytes>): Bytes
    requires ValidChunks(cs)
  {
    Prefix(|cs|) + Body(cs)
  }

  /** Which chunk lists the encoder refuses, and how (`payload_container_len`). */
  function Refusal(cs: seq<Bytes>): Option<EncodeError> {
    if |cs| == 0 then Some(ENoChunks)
    else if |cs| > MAX_CONTAINER_CHUNKS then Some(ETooManyChunks(|cs|))
    else FirstBad(cs)
  }

  function FirstBad(cs: seq<Bytes>): Option<EncodeError> {
    if cs == [] then None
    else if |cs[0]| == 0 then Some(EEmptyChunk)
    else if |cs[0]| >= U32 then Some(EChunkTooLarge(|cs[0]|))
    else FirstBad(cs[1..])
  }

  lemma {:induction false} FirstBadIff(cs: seq<Bytes>)
    ensures FirstBad(cs).None? <==> forall i :: 0 <= i < |cs| ==> ValidChunk(cs[i])
  {
    if cs != [] {
      FirstBadIff(cs[1..]);
      assert cs == [cs[0]] + cs[1..];
      assert (forall i :: 0 <= i < |cs| ==> ValidChunk(cs[i]))
        <==> ValidChunk(cs[0]) && forall i :: 0 <= i < |cs[1..]| ==> ValidChunk(cs[1..][i]) by {
        if ValidChunk(cs[0]) && forall i :: 0 <= i < |cs[1..]| ==> ValidChunk(cs[1..][i]) {
          forall i | 0 <= i < |cs| ensures ValidChunk(cs[i]) { assert i > 0 ==> cs[1..][i - 1] == cs[i]; }
        }
      }
    }
  }

  /** The reason for a refusal: no chunk, more than 65536 chunks, or the first chunk that is empty or
      too long for a 32-bit length. */
  ghost predicate RefusedFor(cs: seq<Bytes>, e: EncodeError) {
    if |cs| == 0 then e == ENoChunks
    else if |cs| > 65_536 then e == ETooManyChunks(|cs|)
    else exists i :: 0 <= i < |cs| && BadFirst(cs, i, e)
  }

  ghost predicate BadFirst(cs: seq<Bytes>, i: nat, e: EncodeError)
    requires i < |cs|
  {
    && !(0 < |cs[i]| < 0x1_0000_0000) && e == (if |cs[i]| == 0 then EEmptyChunk else EChunkTooLarge(|cs[i]|))
    && forall k :: 0 <= k < i ==> 0 < |cs[k]| < 0x1_0000_0000
  }

  lemma {:induction false} FirstBadIs(cs: seq<Bytes>)
    requires FirstBad(cs).Some?
    ensures exists i :: 0 <= i < |cs| && BadFirst(cs, i, FirstBad(cs).value)
  {
    var e := FirstBad(cs).value;
    if ValidChunk(cs[0]) {
      FirstBadIs(cs[1..]);
      var i :| 0 <= i < |cs[1..]| && BadFirst(cs[1..], i, e);
      forall k | 0 <= k < i + 1 ensures 0 < |cs[k]| < 0x1_0000_0000 { assert k > 0 ==> cs[k] == cs[1..][k - 1]; }
      assert cs[i + 1] == cs[1..][i];
      assert BadFirst(cs, i + 1, e);
    } else {
      assert BadFirst(cs, 0, e);
    }
  }

  lemma RefusalIs(cs: seq<Bytes>)
    ensures Refusal(cs).Some? ==> RefusedFor(cs, Refusal(cs).value)
  {
    if FirstBad(cs).Some? { FirstBadIs(cs); }
  }

  lemma {:induction false} BodySnoc(cs: seq<Bytes>, i: nat)
    requires i < |cs| && forall k :: 0 <= k < |cs| ==> ValidChunk(cs[k])
    ensures Body(cs[..i + 1]) == Body(cs[..i]) + Le4(|cs[i]|) + cs[i]
    decreases i
  {
    if i == 0 {
      assert cs[..1] == [cs[0]] && cs[..0] == [] && cs[..1][1..] == [];
    } else {
      BodySnoc(cs[1..], i - 1);
      assert cs[..i + 1][1..] == cs[1..][..i] && cs[..i][1..] == cs[1..][..i - 1];
    }
  }

  /** `encode_payload_chunks`: refuse exactly the invalid lists, else append piece by piece. */
  method EncodePayloadChunks(cs: seq<Bytes>) returns (r: Result<Bytes, EncodeError>)
    ensures r.Ok? <==> ValidChunks(cs)
    ensures r.Ok? ==> r.value == Container(cs)
    ensures r.Err? ==> Refusal(cs) == Some(r.error) && RefusedFor(cs, r.error)
  {
    hide *;
    RefusalIff(cs);
    RefusalIs(cs);
    if Refusal(cs).Some? { return Err(Refusal(cs).value); }
    var out := Prefix(|cs|);
    var i := 0;
    PrefixOnly(cs);
    while i < |cs|
      invariant i <= |cs| && out == Prefix(|cs|) + Body(cs[..i])
    {
      AppendChunk(Prefix(|cs|), cs, i);
      out := out + Le4(|cs[i]|) + cs[i];
      i := i + 1;
    }
    assert cs[..i] == cs;
    ContainerIs(cs);
    r := Ok(out);
  }

  lemma RefusalIff(cs: seq<Bytes>)
    ensures Refusal(cs).None? <==> ValidChunks(cs)
    ensures ValidChunks(cs) ==> |cs| < U32 && forall i :: 0 <= i < |cs| ==> ValidChunk(cs[i]) && |cs[i]| < U32
  {
    FirstBadIff(cs);
  }

  lemma PrefixOnly(cs: seq<Bytes>)
    requires |cs| < U32
    ensures Prefix(|cs|) + Body(cs[..0]) == Prefix(|cs|)
  {
    assert cs[..0] == [];
  }

  lemma {:induction false} AppendChunk(prefix: Bytes, cs: seq<Bytes>, i: nat)
    requires i < |cs| && forall k :: 0 <= k < |cs| ==> ValidChunk(cs[k])
    ensures |cs[i]| < U32 && prefix + Body(cs[..i + 1]) == prefix + Body(cs[..i]) + Le4(|cs[i]|) + cs[i]
  {
    hide Body;
    BodySnoc(cs, i);
  }

  lemma ContainerIs(cs: seq<Bytes>)
    requires ValidChunks(cs)
    ensures |cs| < U32 && Container(cs) == Prefix(|cs|) + Body(cs)
  {
  }

  /** No container reaches the largest 64-bit length, so the length sum of the encoder, which is
      checked, cannot overflow there. */
  lemma {:induction false} ContainerFits(cs: seq<Bytes>)
    requires ValidChunks(cs)
    ensures |Container(cs)| < U64
  {
    hide Body;
    hide Prefix;
    BodyLength(cs);
    assert |cs| * (U32 + 4) <= MAX_CONTAINER_CHUNKS * (U32 + 4);
  }

  lemma {:induction false} BodyLength(cs: seq<Bytes>)
    requires forall i :: 0 <= i < |cs| ==> ValidChunk(cs[i])
    ensures |Body(cs)| <= |cs| * (U32 + 4)
  {
    if cs != [] {
      BodyStep(cs);
      BodyLength(cs[1..]);
      hide Body;
      assert |cs| * (U32 + 4) == (|cs| - 1) * (U32 + 4) + (U32 + 4);
    }
  }

  /** Read `n` length-prefixed chunks off the front. */
  function TakeChunks(rest: Bytes, n: nat): Result<(seq<Bytes>, Bytes), DecodeError>
    decreases n
  {
    if n == 0 then Ok(([], rest))
    else if |rest| < 4 then Err(Truncated)
    else
      var len := FromLe(rest[..4]);
      if len == 0 then Err(EmptyChunk)
      else if |rest| - 4 < len then Err(Truncated)
      else
        match TakeChunks(rest[4 + len..], n - 1)
        case Err(e) => Err(e)
        case Ok(t) => Ok(([rest[4..4 + len]] + t.0, t.1))
  }

  function DecodeContainer(p: Bytes): Result<seq<Bytes>, DecodeError> {
    if |p| == 0 || p[0] != SENTINEL then Err(MissingSentinel)
    else if |p| < CONTAINER_HEADER_LEN then Err(Truncated)
    else if p[1..5] != MAGIC then Err(InvalidMagic)
    else if p[5] != CONTAINER_V1 then Err(UnknownVersion(p[5]))
    else
      var (count, rest) := (FromLe(p[6..10]), p[CONTAINER_HEADER_LEN..]);
      if count == 0 then Err(NoChunks)
      else if count > MAX_CONTAINER_CHUNKS then Err(TooManyChunks(count))
      else if count > |rest| / 4 then Err(Truncated)
      else
        match TakeChunks(rest, count)
        case Err(e) => Err(e)
        case Ok(t) => if |t.1| == 0 then Ok(t.0) else Err(TrailingBytes(|t.1|))
  }

  /** `decode_payload_chunks` */
  method DecodePayloadChunks(p: Bytes) returns (r: Result<seq<Bytes>, DecodeError>)
    ensures r == DecodeContainer(p)
  {
    if |p| == 0 || p[0] != SENTINEL { return Err(MissingSentinel); }
    if |p| < CONTAINER_HEADER_LEN { return Err(Truncated); }
    if p[1..5] != MAGIC { return Err(InvalidMagic); }
    if p[5] != CONTAINER_V1 { return Err(UnknownVersion(p[5])); }
    var count := FromLe(p[6..10]);
    if count == 0 { return Err(NoChunks); }
    if count > MAX_CONTAINER_CHUNKS { return Err(TooManyChunks(count)); }
    var rest := p[CONTAINER_HEADER_LEN..];
    if count > |rest| / 4 { return Err(Truncated); }
    ghost var all := TakeChunks(rest, count);
    var cs: seq<Bytes> := [];
    var i := 0;
    Continued([], all);
    while i < count
      invariant i <= count && all == Continue(cs, TakeChunks(rest, count - i))
    {
      if |rest| < 4 { return Err(Truncated); }
      var len := FromLe(rest[..4]);
      if len == 0 { return Err(EmptyChunk); }
      if |rest| - 4 < len { return Err(Truncated); }
      ContinueStep(cs, rest, count - i);
      cs := cs + [rest[4..4 + len]];
      rest := rest[4 + len..];
      i := i + 1;
    }
    assert cs + [] == cs;
    if |rest| != 0 { return Err(TrailingBytes(|rest|)); }
    r := Ok(cs);
  }

  function Continue(cs: seq<Bytes>, r: Result<(seq<Bytes>, Bytes), DecodeError>):
      Result<(seq<Bytes>, Bytes), DecodeError> {
    match r case Err(e) => Err(e) case Ok(t) => Ok((cs + t.0, t.1))
  }

  lemma Continued(cs: seq<Bytes>, r: Result<(seq<Bytes>, Bytes), DecodeError>)
    ensures cs == [] ==> Continue(cs, r) == r
  {
    if r.Ok? { assert [] + r.value.0 == r.value.0; }
  }

  lemma {:induction false} ContinueStep(cs: seq<Bytes>, rest: Bytes, n: nat)
    requires n > 0 && |rest| >= 4 && 0 < FromLe(rest[..4]) <= |rest| - 4
    ensures var len := FromLe(rest[..4]);
      Continue(cs, TakeChunks(rest, n)) == Continue(cs + [rest[4..4 + len]], TakeChunks(rest[4 + len..], n - 1))
  {
    var len := FromLe(rest[..4]);
    var t := TakeChunks(rest[4 + len..], n - 1);
    if t.Ok? { assert cs + ([rest[4..4 + len]] + t.value.0) == cs + [rest[4..4 + len]] + t.value.0; }
  }

  // ---- container round trips ----

  /** Where the parts of `h + c + more` lie. */
  lemma Cut(h: Bytes, c: Bytes, more: Bytes)
    requires |h| == 4
    ensures var s := h + c + more; s[..4] == h && s[4..4 + |c|] == c && s[4 + |c|..] == more && |s| >= 4 + |c|
  {
  }

  lemma BodyStep(cs: seq<Bytes>)
    requires cs != [] && forall i :: 0 <= i < |cs| ==> ValidChunk(cs[i])
    ensures ValidChunk(cs[0]) && |cs[0]| < U32 && (forall i :: 0 <= i < |cs[1..]| ==> ValidChunk(cs[1..][i]))
    ensures Body(cs) == Le4(|cs[0]|) + cs[0] + Body(cs[1..]) && 0 < |cs[0]|
  {
  }

  lemma TakeStep(rest: Bytes, n: nat)
    requires n > 0 && |rest| >= 4 && 0 < FromLe(rest[..4]) <= |rest| - 4
    ensures var len := FromLe(rest[..4]);
      TakeChunks(rest, n) ==
      match TakeChunks(rest[4 + len..], n - 1)
      case Err(e) => Err(e)
      case Ok(t) => Ok(([rest[4..4 + len]] + t.0, t.1))
  {
  }

  lemma TakeOpens(rest: Bytes, n: nat)
    requires TakeChunks(rest, n).Ok?
    ensures n == 0 ==> TakeChunks(rest, n) == Ok(([], rest))
    ensures n > 0 ==>
      |rest| >= 4 && 0 < FromLe(rest[..4]) <= |rest| - 4 && TakeChunks(rest[4 + FromLe(rest[..4])..], n - 1).Ok?
  {
  }

  lemma {:induction false} TakeBody(cs: seq<Bytes>, tail: Bytes)
    requires forall i :: 0 <= i < |cs| ==> ValidChunk(cs[i])
    ensures TakeChunks(Body(cs) + tail, |cs|) == Ok((cs, tail))
    ensures |Body(cs)| >= 4 * |cs|
    decreases |cs|, 1
  {
    if cs == [] {
      assert [] + tail == tail;
      return;
    }
    TakeBodyCons(cs, tail);
  }

  lemma {:induction false} TakeBodyCons(cs: seq<Bytes>, tail: Bytes)
    requires cs != [] && forall i :: 0 <= i < |cs| ==> ValidChunk(cs[i])
    ensures TakeChunks(Body(cs) + tail, |cs|) == Ok((cs, tail))
    ensures |Body(cs)| >= 4 * |cs|
    decreases |cs|, 0
  {
    hide *;
    BodyStep(cs);
    TakeBody(cs[1..], tail);
    var (h, c, more) := (Le4(|cs[0]|), cs[0], Body(cs[1..]) + tail);
    Cut(h, c, more);
    assert Body(cs) + tail == h + c + more;
    TakeStep(h + c + more, |cs|);
    assert cs == [cs[0]] + cs[1..];
  }

  lemma {:induction false} TakeExact(rest: Bytes, n: nat)
    requires TakeChunks(rest, n).Ok?
    ensures var (cs, tail) := TakeChunks(rest, n).value;
      |cs| == n && (forall i :: 0 <= i < |cs| ==> ValidChunk(cs[i])) && rest == Body(cs) + tail
    decreases n
  {
    hide *;
    TakeOpens(rest, n);
    if n > 0 {
      var len := FromLe(rest[..4]);
      TakeExact(rest[4 + len..], n - 1);
      Le4Back(rest[..4]);
      TakeStep(rest, n);
      var (cs, t) := (TakeChunks(rest, n).value.0, TakeChunks(rest[4 + len..], n - 1).value);
      Joined(cs, rest[4..4 + len], t.0);
      BodyStep(cs);
      assert rest == rest[..4] + rest[4..4 + len] + rest[4 + len..];
      assert rest == Le4(len) + rest[4..4 + len] + (Body(t.0) + t.1) == Le4(len) + rest[4..4 + len] + Body(t.0) + t.1;
    } else {
      BodyNil();
      assert [] + rest == rest;
    }
  }

  lemma BodyNil()
    ensures Body([]) == []
  {
  }

  lemma Joined(cs: seq<Bytes>, c: Bytes, more: seq<Bytes>)
    requires cs == [c] + more && 0 < |c| < U32 && forall i :: 0 <= i < |more| ==> ValidChunk(more[i])
    ensures forall i :: 0 <= i < |cs| ==> ValidChunk(cs[i])
    ensures cs[0] == c && cs[1..] == more && |cs| == |more| + 1
  {
  }

  lemma PrefixFields(count: nat, tail: Bytes)
    requires count < U32
    ensures var p := Prefix(count) + tail;
      p[0] == SENTINEL && p[1..5] == MAGIC && p[5] == CONTAINER_V1 && FromLe(p[6..10]) == count && p[10..] == tail
  {
    var p := Prefix(count) + tail;
    assert p[6..10] == Le4(count);
  }

  /** Decoding a container gives back its chunks; the checks on declared counts never reject an
      encoder's output. */
  lemma {:induction false} ContainerRoundTrip(cs: seq<Bytes>)
    requires ValidChunks(cs)
    ensures DecodeContainer(Container(cs)) == Ok(cs)
  {
    hide Body;
    hide FromLe;
    hide Prefix;
    PrefixFields(|cs|, Body(cs));
    TakeBody(cs, []);
    assert Body(cs) + [] == Body(cs);
    hide TakeChunks;
  }

  /** Every accepted payload is the encoding of what was read from it. */
  lemma {:induction false} ContainerExact(p: Bytes)
    requires DecodeContainer(p).Ok?
    ensures ValidChunks(DecodeContainer(p).value) && Container(DecodeContainer(p).value) == p
  {
    var (count, rest) := (FromLe(p[6..10]), p[10..]);
    TakeExact(rest, count);
    Le4Back(p[6..10]);
    hide TakeChunks;
    hide FromLe;
    hide Body;
    var cs := DecodeContainer(p).value;
    assert Body(cs) + [] == Body(cs);
    assert p[..10] == [p[0]] + p[1..5] + [p[5]] + p[6..10];
    assert p == p[..10] + rest;
  }

  /** Extra bytes after a whole container are rejected, so none is a proper prefix of another. */
  lemma {:induction false} ContainerPrefixFree(p: Bytes, x: Bytes)
    requires DecodeContainer(p).Ok? && DecodeContainer(p + x).Ok?
    ensures x == []
  {
    var rest := p[10..];
    var count := FromLe(p[6..10]);
    assert (p + x)[6..10] == p[6..10] && (p + x)[10..] == rest + x;
    TakeExact(rest, count);
    var (cs, tail) := TakeChunks(rest, count).value;
    assert tail == [] && rest == Body(cs) + tail == Body(cs);
    TakeBody(cs, x);
  }

  // ---- the frame header ----

  datatype FrameKind = Rows | Ddl | EmptyKind

  datatype RunTotals = RunTotals(runRows: nat, rowsCum: nat)

  datatype FrameHeader = FrameHeader(kind: FrameKind, committedAt: int, runId: Option<Bytes>,
    runTotals: Option<RunTotals>)

  predicate Between(b: Byte, lo: int, hi: int) {
    lo <= b <= hi
  }

  /** Well-formed UTF-8 (section 4 of RFC 3629). */
  predicate Utf8(s: Bytes) {
    || s == []
    || (s[0] < 0x80 && Utf8(s[1..]))
    || (|s| > 1 && Between(s[0], 0xC2, 0xDF) && Between(s[1], 0x80, 0xBF) && Utf8(s[2..]))
    || (|s| > 2 && Between(s[0], 0xE0, 0xEF)
      && Between(s[1], if s[0] == 0xE0 then 0xA0 else 0x80, if s[0] == 0xED then 0x9F else 0xBF)
        && Between(s[2], 0x80, 0xBF) && Utf8(s[3..]))
    || (|s| > 3 && Between(s[0], 0xF0, 0xF4)
      && Between(s[1], if s[0] == 0xF0 then 0x90 else 0x80, if s[0] == 0xF4 then 0x8F else 0xBF)
        && Between(s[2], 0x80, 0xBF) && Between(s[3], 0x80, 0xBF) && Utf8(s[4..]))
  }

  /** A Unicode scalar value, and its encoding (section 3 of RFC 3629). */
  predicate IsScalar(c: nat) {
    c < 0xD800 || 0xE000 <= c < 0x11_0000
  }

  function EncodeScalar(c: nat): Bytes
    requires IsScalar(c)
  {
    if c < 0x80 then [c]
    else if c < 0x800 then [0xC0 + c / 0x40, 0x80 + c % 0x40]
    else if c < 0x1_0000 then [0xE0 + c / 0x1000, 0x80 + c / 0x40 % 0x40, 0x80 + c % 0x40]
    else [0xF0 + c / 0x4_0000, 0x80 + c / 0x1000 % 0x40, 0x80 + c / 0x40 % 0x40, 0x80 + c % 0x40]
  }

  ghost predicate Spells(cs: seq<nat>, s: Bytes) {
    if cs == [] then s == []
    else IsScalar(cs[0]) && EncodeScalar(cs[0]) <= s && Spells(cs[1..], s[|EncodeScalar(cs[0])|..])
  }

  /** A byte string is well formed exactly when it spells a sequence of scalar values. */
  lemma Utf8Iff(s: Bytes)
    ensures Utf8(s) <==> exists cs :: Spells(cs, s)
  {
    hide *;
    if Utf8(s) { var cs := Utf8Spells(s); }
    if cs :| Spells(cs, s) { SpellsUtf8(cs, s); }
  }

  lemma {:induction false} Utf8Spells(s: Bytes) returns (cs: seq<nat>)
    requires Utf8(s)
    ensures Spells(cs, s)
    decreases |s|
  {
    hide Utf8;
    if s == [] {
      cs := [];
    } else {
      var c := Leading(s);
      var rest := Utf8Spells(s[|EncodeScalar(c)|..]);
      cs := [c] + rest;
      assert cs[1..] == rest;
    }
  }

  lemma {:induction false} SpellsUtf8(cs: seq<nat>, s: Bytes)
    requires Spells(cs, s)
    ensures Utf8(s)
    decreases |cs|
  {
    if cs != [] {
      hide Utf8;
      var rest := s[|EncodeScalar(cs[0])|..];
      SpellsUtf8(cs[1..], rest);
      assert s == EncodeScalar(cs[0]) + rest;
      ScalarLeads(cs[0], rest);
    }
  }

  lemma {:induction false} ScalarLeads(c: nat, rest: Bytes)
    requires IsScalar(c) && Utf8(rest)
    ensures Utf8(EncodeScalar(c) + rest)
  {
    var (e, s) := (EncodeScalar(c), EncodeScalar(c) + rest);
    assert s[|e|..] == rest;
    if 0x800 <= c < 0x1_0000 { ThreeByteDigits(c); }
    if c >= 0x1_0000 { FourByteDigits(c); }
    assert |s| >= |e| && forall i :: 0 <= i < |e| ==> s[i] == e[i];
  }

  lemma ThreeByteDigits(c: nat)
    requires IsScalar(c) && 0x800 <= c < 0x1_0000
    ensures c / 0x1000 <= 0xF
    ensures c / 0x1000 == 0 ==> c / 0x40 % 0x40 >= 0x20
    ensures c / 0x1000 == 0xD ==> c / 0x40 % 0x40 < 0x20
  {
    assert c / 0x1000 == c / 0x40 / 0x40;
  }

  lemma FourByteDigits(c: nat)
    requires IsScalar(c) && c >= 0x1_0000
    ensures c / 0x4_0000 <= 4
    ensures c / 0x4_0000 == 0 ==> c / 0x1000 % 0x40 >= 0x10
    ensures c / 0x4_0000 == 4 ==> c / 0x1000 % 0x40 < 0x10
  {
    assert c / 0x4_0000 == c / 0x1000 / 0x40;
  }

  lemma ThreeDigits(a: nat, b: nat, c: nat)
    requires b < 0x40 && c < 0x40
    ensures var x := a * 0x1000 + b * 0x40 + c; x / 0x1000 == a && x / 0x40 % 0x40 == b && x % 0x40 == c
  {
    var x := a * 0x1000 + b * 0x40 + c;
    assert x / 0x40 == a * 0x40 + b;
  }

  lemma FourDigits(a: nat, b: nat, c: nat, d: nat)
    requires b < 0x40 && c < 0x40 && d < 0x40
    ensures var x := a * 0x4_0000 + b * 0x1000 + c * 0x40 + d;
      x / 0x4_0000 == a && x / 0x1000 % 0x40 == b && x / 0x40 % 0x40 == c && x % 0x40 == d
  {
    var x := a * 0x4_0000 + b * 0x1000 + c * 0x40 + d;
    ThreeDigits(a * 0x40 + b, c, d);
    assert (a * 0x40 + b) % 0x40 == b && x / 0x4_0000 == a;
  }

  /** The scalar value a well-formed string starts with. */
  lemma {:induction false} Leading(s: Bytes) returns (c: nat)
    requires s != [] && Utf8(s)
    ensures IsScalar(c) && EncodeScalar(c) <= s && Utf8(s[|EncodeScalar(c)|..])
  {
    var a := s[0] as int;
    if a < 0x80 {
      c := a;
    } else if a < 0xE0 {
      c := (a - 0xC0) * 0x40 + (s[1] as int - 0x80);
    } else if a < 0xF0 {
      c := LeadingThree(s);
    } else {
      c := LeadingFour(s);
    }
  }

  lemma {:induction false} LeadingThree(s: Bytes) returns (c: nat)
    requires s != [] && Utf8(s) && 0xE0 <= s[0] < 0xF0
    ensures IsScalar(c) && |s| >= 3 && EncodeScalar(c) == s[..3] && Utf8(s[3..])
  {
    var (x, y, z) := (s[0] as int - 0xE0, s[1] as int - 0x80, s[2] as int - 0x80);
    c := x * 0x1000 + y * 0x40 + z;
    ThreeDigits(x, y, z);
  }

  lemma {:induction false} LeadingFour(s: Bytes) returns (c: nat)
    requires s != [] && Utf8(s) && 0xF0 <= s[0]
    ensures IsScalar(c) && |s| >= 4 && EncodeScalar(c) == s[..4] && Utf8(s[4..])
  {
    var (x, y, z, w) := (s[0] as int - 0xF0, s[1] as int - 0x80, s[2] as int - 0x80, s[3] as int - 0x80);
    c := x * 0x4_0000 + y * 0x1000 + z * 0x40 + w;
    FourDigits(x, y, z, w);
  }

  const I63 := 0x8000_0000_0000_0000

  /** What the field types guarantee of any header: a 64-bit clock, a UTF-8 string, 64-bit totals. */
  predicate Typed(h: FrameHeader) {
    && -I63 <= h.committedAt < I63
    && (h.runId.Some? ==> Utf8(h.runId.value))
    && (h.runTotals.Some? ==> h.runTotals.value.runRows < U64 && h.runTotals.value.rowsCum < U64)
  }

  /** The run id fits its length byte. */
  predicate Fits(h: FrameHeader) {
    h.runId.Some? ==> |h.runId.value| <= 255
  }

  function KindByte(k: FrameKind): Byte {
    match k case Rows => 0 case Ddl => 1 case EmptyKind => 2
  }

  function Unsigned(i: int): nat
    requires -I63 <= i < I63
  {
    if i < 0 then i + U64 else i
  }

  function Signed(n: nat): int {
    if n >= I63 then n - U64 else n
  }

  function Flags(h: FrameHeader): Byte {
    (if h.runId.Some? then 1 else 0) + (if h.runTotals.Some? then 2 else 0)
  }

  function IdBytes(id: Option<Bytes>): Bytes
    requires id.Some? ==> |id.value| <= 255
  {
    if id.None? then [] else [|id.value| as Byte] + id.value
  }

  function TotalsBytes(t: Option<RunTotals>): Bytes
    requires t.Some? ==> t.value.runRows < U64 && t.value.rowsCum < U64
  {
    if t.None? then [] else Le8(t.value.runRows) + Le8(t.value.rowsCum)
  }

  /** `encode_header_into` */
  function HeaderBytes(h: FrameHeader, version: Byte): Bytes
    requires Typed(h) && Fits(h)
  {
    [version, KindByte(h.kind), Flags(h)] + Le8(Unsigned(h.committedAt)) + (IdBytes(h.runId) + TotalsBytes(h.runTotals))
  }

  function TakeId(present: bool, rest: Bytes): Result<(Option<Bytes>, Bytes), DecodeError> {
    if !present then Ok((None, rest))
    else if |rest| == 0 || |rest| - 1 < rest[0] then Err(Truncated)
    else if !Utf8(rest[1..1 + rest[0]]) then Err(RunIdNotUtf8)
    else Ok((Some(rest[1..1 + rest[0]]), rest[1 + rest[0]..]))
  }

  function TakeTotals(present: bool, rest: Bytes): Result<(Option<RunTotals>, Bytes), DecodeError> {
    if !present then Ok((None, rest))
    else if |rest| < 16 then Err(Truncated)
    else Ok((Some(RunTotals(FromLe(rest[..8]), FromLe(rest[8..16]))), rest[16..]))
  }

  /** `FrameHeader::decode` */
  function Decode(b: Bytes): Result<(FrameHeader, Bytes), DecodeError> {
    if |b| == 0 then Err(Truncated)
    else if b[0] != FRAME_FORMAT_V1 && b[0] != FRAME_FORMAT_V2 then Err(UnknownFormat(b[0]))
    else if |b| < 2 then Err(Truncated)
    else if b[1] > 2 then Err(UnknownKind(b[1]))
    else if |b| < 3 then Err(Truncated)
    else if b[2] >= 4 then Err(UnknownFlags(b[2] - b[2] % 4))
    else if |b| < 11 then Err(Truncated)
    else
      var kind := if b[1] == 0 then Rows else if b[1] == 1 then Ddl else EmptyKind;
      DecodeTail(kind, b[2], Signed(FromLe(b[3..11])), b[11..])
  }

  function DecodeTail(kind: FrameKind, flags: Byte, at: int, rest: Bytes): Result<(FrameHeader, Bytes), DecodeError> {
    match TakeId(flags % 2 == 1, rest)
    case Err(e) => Err(e)
    case Ok(i) =>
      match TakeTotals(flags / 2 == 1, i.1)
      case Err(e) => Err(e)
      case Ok(t) =>
        if kind.EmptyKind? && |t.1| != 0 then Err(EmptyFrameWithPayload)
        else Ok((FrameHeader(kind, at, i.0, t.0), t.1))
  }

  lemma IdRoundTrip(id: Option<Bytes>, tail: Bytes)
    requires id.Some? ==> |id.value| <= 255 && Utf8(id.value)
    ensures TakeId(id.Some?, IdBytes(id) + tail) == Ok((id, tail))
  {
    hide Utf8;
    if id.Some? {
      var rest := IdBytes(id) + tail;
      assert rest[0] == |id.value| && rest[1..1 + |id.value|] == id.value && rest[1 + |id.value|..] == tail;
    } else {
      assert [] + tail == tail;
    }
  }

  lemma IdExact(present: bool, rest: Bytes)
    requires TakeId(present, rest).Ok?
    ensures var (id, tail) := TakeId(present, rest).value;
      id.Some? == present && (id.Some? ==> |id.value| <= 255 && Utf8(id.value)) && IdBytes(id) + tail == rest
  {
    hide Utf8;
    if present {
      assert rest == [rest[0]] + rest[1..1 + rest[0]] + rest[1 + rest[0]..];
    } else {
      assert [] + rest == rest;
    }
  }

  lemma TotalsRoundTrip(t: Option<RunTotals>, tail: Bytes)
    requires t.Some? ==> t.value.runRows < U64 && t.value.rowsCum < U64
    ensures TakeTotals(t.Some?, TotalsBytes(t) + tail) == Ok((t, tail))
  {
    hide FromLe;
    if t.Some? {
      var rest := TotalsBytes(t) + tail;
      assert rest[..8] == Le8(t.value.runRows) && rest[8..16] == Le8(t.value.rowsCum) && rest[16..] == tail;
    } else {
      assert [] + tail == tail;
    }
  }

  lemma TotalsExact(present: bool, rest: Bytes)
    requires TakeTotals(present, rest).Ok?
    ensures var (t, tail) := TakeTotals(present, rest).value;
      t.Some? == present && (t.Some? ==> t.value.runRows < U64 && t.value.rowsCum < U64)
      && TotalsBytes(t) + tail == rest
  {
    hide FromLe;
    if present {
      Le8Back(rest[..8]);
      Le8Back(rest[8..16]);
      assert rest == rest[..8] + rest[8..16] + rest[16..];
    } else {
      assert [] + rest == rest;
    }
  }

  lemma {:induction false} TailRoundTrip(h: FrameHeader, payload: Bytes)
    requires Typed(h) && Fits(h) && (h.kind.EmptyKind? ==> payload == [])
    ensures DecodeTail(h.kind, Flags(h), h.committedAt, IdBytes(h.runId) + TotalsBytes(h.runTotals) + payload)
      == Ok((h, payload))
  {
    hide Utf8;
    hide IdBytes;
    hide TotalsBytes;
    hide TakeId;
    hide TakeTotals;
    IdRoundTrip(h.runId, TotalsBytes(h.runTotals) + payload);
    TotalsRoundTrip(h.runTotals, payload);
    assert IdBytes(h.runId) + TotalsBytes(h.runTotals) + payload
      == IdBytes(h.runId) + (TotalsBytes(h.runTotals) + payload);
  }

  lemma HeaderFields(h: FrameHeader, version: Byte, payload: Bytes)
    requires Typed(h) && Fits(h)
    ensures var b := HeaderBytes(h, version) + payload;
      && |b| >= 11 && b[0] == version && b[1] == KindByte(h.kind) && b[2] == Flags(h)
      && Signed(FromLe(b[3..11])) == h.committedAt
      && b[11..] == IdBytes(h.runId) + TotalsBytes(h.runTotals) + payload
  {
    hide Utf8;
    hide FromLe;
    hide IdBytes;
    hide TotalsBytes;
    var b := HeaderBytes(h, version) + payload;
    assert b[3..11] == Le8(Unsigned(h.committedAt));
  }

  /** Decoding any encoded header and payload returns both, under either version. */
  lemma {:induction false} HeaderRoundTrip(h: FrameHeader, version: Byte, payload: Bytes)
    requires Typed(h) && Fits(h) && (version == FRAME_FORMAT_V1 || version == FRAME_FORMAT_V2)
    requires h.kind.EmptyKind? ==> payload == []
    ensures Decode(HeaderBytes(h, version) + payload) == Ok((h, payload))
  {
    hide Utf8;
    hide HeaderBytes;
    hide DecodeTail;
    hide Typed;
    HeaderFields(h, version, payload);
    TailRoundTrip(h, payload);
  }

  /** Every accepted frame is the encoding of the header and payload read from it. */
  lemma {:induction false} HeaderExact(b: Bytes)
    requires Decode(b).Ok?
    ensures |b| >= 11
    ensures var (h, payload) := Decode(b).value;
      && Typed(h) && Fits(h) && (b[0] == FRAME_FORMAT_V1 || b[0] == FRAME_FORMAT_V2)
      && (h.kind.EmptyKind? ==> payload == [])
      && HeaderBytes(h, b[0]) + payload == b
  {
    hide FromLe;
    hide Utf8;
    hide TakeId;
    hide TakeTotals;
    hide IdBytes;
    hide TotalsBytes;
    var (h, payload) := Decode(b).value;
    var rest := b[11..];
    IdExact(b[2] % 2 == 1, rest);
    var (id, r1) := TakeId(b[2] % 2 == 1, rest).value;
    TotalsExact(b[2] / 2 == 1, r1);
    Le8Back(b[3..11]);
    assert rest == IdBytes(h.runId) + (TotalsBytes(h.runTotals) + payload)
      == IdBytes(h.runId) + TotalsBytes(h.runTotals) + payload;
    assert b[..11] == [b[0], b[1], b[2]] + b[3..11];
    assert b == b[..11] + rest;
  }

  // ---- whole frames ----

  /** `encode`: a legacy frame around one opaque payload. */
  function EncodeV1(h: FrameHeader, payload: Bytes): Result<Bytes, EncodeError>
    requires Typed(h)
  {
    if h.kind.EmptyKind? && |payload| != 0 then Err(EEmptyFrameWithPayload)
    else if !Fits(h) then Err(ERunIdTooLong(|h.runId.value|))
    else Ok(HeaderBytes(h, FRAME_FORMAT_V1) + payload)
  }

  /** `encode_frame`: a current frame around a chunk container. */
  ghost function EncodeV2(h: FrameHeader, cs: seq<Bytes>): Result<Bytes, EncodeError>
    requires Typed(h)
  {
    if h.kind.EmptyKind? then
      if |cs| != 0 then Err(EEmptyFrameWithPayload)
      else if !Fits(h) then Err(ERunIdTooLong(|h.runId.value|))
      else Ok(HeaderBytes(h, FRAME_FORMAT_V2))
    else if !ValidChunks(cs) then Err(if Refusal(cs).Some? then Refusal(cs).value else ENoChunks)
    else if !Fits(h) then Err(ERunIdTooLong(|h.runId.value|))
    else Ok(HeaderBytes(h, FRAME_FORMAT_V2) + Container(cs))
  }

  method EncodeFrame(h: FrameHeader, cs: seq<Bytes>) returns (r: Result<Bytes, EncodeError>)
    requires Typed(h)
    ensures r == EncodeV2(h, cs)
  {
    if h.kind.EmptyKind? {
      if |cs| != 0 { return Err(EEmptyFrameWithPayload); }
      if !Fits(h) { return Err(ERunIdTooLong(|h.runId.value|)); }
      return Ok(HeaderBytes(h, FRAME_FORMAT_V2));
    }
    var c := EncodePayloadChunks(cs);
    if c.Err? { return Err(c.error); }
    if !Fits(h) { return Err(ERunIdTooLong(|h.runId.value|)); }
    r := Ok(HeaderBytes(h, FRAME_FORMAT_V2) + c.value);
  }

  /** `decode_chunks`: the one decode every chunk consumer shares. */
  function DecodeChunks(b: Bytes): Result<(FrameHeader, seq<Bytes>), DecodeError> {
    match Decode(b)
    case Err(e) => Err(e)
    case Ok(d) =>
      if d.0.kind.EmptyKind? then Ok((d.0, []))
      else if b[0] == FRAME_FORMAT_V1 then Ok((d.0, [d.1]))
      else
        match DecodeContainer(d.1)
        case Err(e) => Err(e)
        case Ok(cs) => Ok((d.0, cs))
  }

  /** Current frames: decoding an encoder's output returns the header and the chunks. */
  lemma {:induction false} V2RoundTrip(h: FrameHeader, cs: seq<Bytes>)
    requires Typed(h) && EncodeV2(h, cs).Ok?
    ensures DecodeChunks(EncodeV2(h, cs).value) == Ok((h, cs))
  {
    hide HeaderBytes;
    hide Decode;
    hide Container;
    hide DecodeContainer;
    hide Typed;
    if h.kind.EmptyKind? {
      HeaderRoundTrip(h, FRAME_FORMAT_V2, []);
      HeaderFields(h, FRAME_FORMAT_V2, []);
      assert HeaderBytes(h, FRAME_FORMAT_V2) + [] == HeaderBytes(h, FRAME_FORMAT_V2);
    } else {
      HeaderRoundTrip(h, FRAME_FORMAT_V2, Container(cs));
      HeaderFields(h, FRAME_FORMAT_V2, Container(cs));
      ContainerRoundTrip(cs);
    }
  }

  /** Legacy frames: the payload comes back as one chunk. */
  lemma {:induction false} V1RoundTrip(h: FrameHeader, payload: Bytes)
    requires Typed(h) && EncodeV1(h, payload).Ok?
    ensures Decode(EncodeV1(h, payload).value) == Ok((h, payload))
    ensures DecodeChunks(EncodeV1(h, payload).value) == Ok((h, if h.kind.EmptyKind? then [] else [payload]))
  {
    hide HeaderBytes;
    hide Decode;
    hide Typed;
    HeaderRoundTrip(h, FRAME_FORMAT_V1, payload);
    HeaderFields(h, FRAME_FORMAT_V1, payload);
  }

  /** Every accepted frame re-encodes to itself. */
  lemma {:induction false} FrameExact(b: Bytes)
    requires DecodeChunks(b).Ok?
    ensures var (h, cs) := DecodeChunks(b).value;
      && Typed(h)
      && (b[0] == FRAME_FORMAT_V2 ==> EncodeV2(h, cs) == Ok(b))
      && (b[0] == FRAME_FORMAT_V1 ==>
        |cs| == (if h.kind.EmptyKind? then 0 else 1) && EncodeV1(h, if h.kind.EmptyKind? then [] else cs[0]) == Ok(b))
      && (b[0] == FRAME_FORMAT_V1 || b[0] == FRAME_FORMAT_V2)
  {
    hide HeaderBytes;
    hide Decode;
    hide Container;
    hide DecodeContainer;
    hide Typed;
    HeaderExact(b);
    var (h, payload) := Decode(b).value;
    assert HeaderBytes(h, b[0]) + [] == HeaderBytes(h, b[0]);
    if !h.kind.EmptyKind? && b[0] == FRAME_FORMAT_V2 { ContainerExact(payload); }
  }

  lemma {:induction false} TailExtends(kind: FrameKind, flags: Byte, at: int, rest: Bytes, x: Bytes)
    requires DecodeTail(kind, flags, at, rest).Ok? && DecodeTail(kind, flags, at, rest + x).Ok?
    ensures DecodeTail(kind, flags, at, rest + x)
      == Ok((DecodeTail(kind, flags, at, rest).value.0, DecodeTail(kind, flags, at, rest).value.1 + x))
  {
    hide Utf8;
    hide FromLe;
    if flags % 2 == 1 {
      assert (rest + x)[1..1 + rest[0]] == rest[1..1 + rest[0]] && (rest + x)[1 + rest[0]..] == rest[1 + rest[0]..] + x;
    }
    var r1 := TakeId(flags % 2 == 1, rest).value.1;
    assert TakeId(flags % 2 == 1, rest + x).value.1 == r1 + x;
    if flags / 2 == 1 {
      assert (r1 + x)[..8] == r1[..8] && (r1 + x)[8..16] == r1[8..16] && (r1 + x)[16..] == r1[16..] + x;
    }
  }

  /** No accepted current frame is a proper prefix of another. */
  lemma {:induction false} FramePrefixFree(b: Bytes, x: Bytes)
    requires DecodeChunks(b).Ok? && DecodeChunks(b + x).Ok? && b[0] == FRAME_FORMAT_V2
    ensures x == []
  {
    hide DecodeTail;
    hide DecodeContainer;
    hide FromLe;
    assert (b + x)[3..11] == b[3..11] && (b + x)[11..] == b[11..] + x;
    var kind := if b[1] == 0 then Rows else if b[1] == 1 then Ddl else EmptyKind;
    TailExtends(kind, b[2], Signed(FromLe(b[3..11])), b[11..], x);
    var (h, payload) := Decode(b).value;
    assert Decode(b + x).value.1 == payload + x;
    if h.kind.EmptyKind? {
      HeaderExact(b + x);
    } else {
      ContainerPrefixFree(payload, x);
    }
  }

  // ---- the bytes on the wire ----

  /** A little-endian number of four, or eight, bytes at an offset. */
  predicate U32At(b: Bytes, i: nat, n: int) {
    && i + 4 <= |b|
    && n == b[i] as int + 0x100 * b[i + 1] as int + 0x1_0000 * b[i + 2] as int + 0x100_0000 * b[i + 3] as int
  }

  predicate U64At(b: Bytes, i: nat, n: int) {
    && i + 8 <= |b|
    && n == b[i] as int + 0x100 * b[i + 1] as int + 0x1_0000 * b[i + 2] as int + 0x100_0000 * b[i + 3] as int
        + 0x1_0000_0000 * b[i + 4] as int + 0x100_0000_0000 * b[i + 5] as int
        + 0x1_0000_0000_0000 * b[i + 6] as int + 0x100_0000_0000_0000 * b[i + 7] as int
  }

  lemma ReadsU32(b: Bytes, i: nat, n: nat)
    requires n < U32 && i + 4 <= |b| && b[i..i + 4] == Le4(n)
    ensures U32At(b, i, n)
  {
    FourBytes(b[i..i + 4]);
    hide FromLe;
    hide Le4;
  }

  lemma ReadsU64(b: Bytes, i: nat, n: nat)
    requires n < U64 && i + 8 <= |b| && b[i..i + 8] == Le8(n)
    ensures U64At(b, i, n)
  {
    hide FromLe;
    hide Le8;
    var w := b[i..i + 8];
    FromLeSplit(w[..4], w[4..]);
    assert w == w[..4] + w[4..];
    Powers();
    FourBytes(w[..4]);
    FourBytes(w[4..]);
    hide Power;
  }

  lemma FourBytes(w: Bytes)
    requires |w| == 4
    ensures FromLe(w) == w[0] as int + 0x100 * w[1] as int + 0x1_0000 * w[2] as int + 0x100_0000 * w[3] as int
  {
    var (x, y, z) := (w[1..], w[2..], w[3..]);
    assert x[1..] == y && y[1..] == z && z[1..] == [];
    assert FromLe(z) == z[0] + 256 * FromLe(z[1..]);
    assert FromLe(y) == y[0] + 256 * FromLe(z);
    assert FromLe(x) == x[0] + 256 * FromLe(y);
  }

  lemma {:induction false} FromLeSplit(a: Bytes, b: Bytes)
    ensures FromLe(a + b) == FromLe(a) + Power(|a|) * FromLe(b)
  {
    hide *;
    FromLeStep(a);
    if a == [] {
      assert a + b == b;
    } else {
      FromLeSplit(a[1..], b);
      FromLeStep(a + b);
      assert (a + b)[1..] == a[1..] + b;
      Distributes(a[0], FromLe(a[1..]), Power(|a| - 1), FromLe(b));
    }
  }

  lemma FromLeStep(a: Bytes)
    ensures a == [] ==> FromLe(a) == 0 && Power(|a|) == 1
    ensures a != [] ==> FromLe(a) == a[0] + 256 * FromLe(a[1..]) && Power(|a|) == 256 * Power(|a| - 1)
  {
  }

  lemma Distributes(a: int, f: int, p: int, n: int)
    ensures a + 256 * (f + p * n) == a + 256 * f + (256 * p) * n
  {
  }

  /** The header, byte by byte: version, kind, flags, the clock in two's complement, then the run id
      behind its length byte and the two totals, each only when present. */
  lemma {:induction false} HeaderLayout(h: FrameHeader, version: Byte)
    requires Typed(h) && Fits(h)
    ensures var b := HeaderBytes(h, version);
      var clock := if h.committedAt < 0 then h.committedAt + 0x1_0000_0000_0000_0000 else h.committedAt;
      var at := 11 + if h.runId.Some? then 1 + |h.runId.value| else 0;
      && |b| == at + (if h.runTotals.Some? then 16 else 0)
      && b[0] == version
      && b[1] == (match h.kind case Rows => 0 case Ddl => 1 case EmptyKind => 2)
      && b[2] == (if h.runId.Some? then 1 else 0) + (if h.runTotals.Some? then 2 else 0)
      && U64At(b, 3, clock)
      && (h.runId.Some? ==> b[11] == |h.runId.value| && b[12..at] == h.runId.value)
      && (h.runTotals.Some? ==>
          U64At(b, at, h.runTotals.value.runRows) && U64At(b, at + 8, h.runTotals.value.rowsCum))
  {
    hide *;
    var b := HeaderBytes(h, version);
    TypedIs(h);
    HeaderParts(h, version);
    ReadsU64(b, 3, if h.committedAt < 0 then h.committedAt + U64 else h.committedAt);
    IdPlaced(b, h.runId, TotalsBytes(h.runTotals));
    TotalsPlaced(b, 11 + |IdBytes(h.runId)|, h.runTotals);
  }

  lemma TypedIs(h: FrameHeader)
    requires Typed(h) && Fits(h)
    ensures U64 == 0x1_0000_0000_0000_0000 && -0x8000_0000_0000_0000 <= h.committedAt < 0x8000_0000_0000_0000
    ensures h.runId.Some? ==> |h.runId.value| <= 255
    ensures h.runTotals.Some? ==> h.runTotals.value.runRows < U64 && h.runTotals.value.rowsCum < U64
  {
  }

  lemma HeaderParts(h: FrameHeader, version: Byte)
    requires Typed(h) && Fits(h)
    ensures var b := HeaderBytes(h, version);
      && |b| >= 11 && b[0] == version
      && b[1] == (match h.kind case Rows => 0 case Ddl => 1 case EmptyKind => 2)
      && b[2] == (if h.runId.Some? then 1 else 0) + (if h.runTotals.Some? then 2 else 0)
      && b[3..11] == Le8(if h.committedAt < 0 then h.committedAt + U64 else h.committedAt)
      && b[11..] == IdBytes(h.runId) + TotalsBytes(h.runTotals)
  {
    hide Utf8;
    hide IdBytes;
    hide TotalsBytes;
    hide Le8;
  }

  lemma IdPlaced(b: Bytes, id: Option<Bytes>, rest: Bytes)
    requires id.Some? ==> |id.value| <= 255
    requires |b| >= 11 && b[11..] == IdBytes(id) + rest
    ensures |IdBytes(id)| == (if id.Some? then 1 + |id.value| else 0)
    ensures var at := 11 + |IdBytes(id)|; at <= |b| && b[at..] == rest
    ensures id.Some? ==> b[11] == |id.value| && b[12..12 + |id.value|] == id.value
  {
    var (n, tail) := (|IdBytes(id)|, b[11..]);
    assert tail[n..] == rest && tail[n..] == b[11 + n..];
    if id.Some? { assert tail[0] == |id.value| && tail[1..n] == id.value == b[12..11 + n]; }
  }

  lemma TotalsPlaced(b: Bytes, at: nat, t: Option<RunTotals>)
    requires t.Some? ==> t.value.runRows < U64 && t.value.rowsCum < U64
    requires at <= |b| && b[at..] == TotalsBytes(t)
    ensures |b| == at + (if t.Some? then 16 else 0)
    ensures t.Some? ==> U64At(b, at, t.value.runRows) && U64At(b, at + 8, t.value.rowsCum)
  {
    if t.Some? {
      hide U64At;
      hide Le8;
      var tail := b[at..];
      assert tail[..8] == Le8(t.value.runRows) == b[at..at + 8];
      assert tail[8..16] == Le8(t.value.rowsCum) == b[at + 8..at + 16];
      ReadsU64(b, at, t.value.runRows);
      ReadsU64(b, at + 8, t.value.rowsCum);
    }
  }

  /** Where chunk `k` of a container starts. */
  function ChunkOffset(cs: seq<Bytes>, k: nat): nat
    requires k <= |cs|
  {
    if k == 0 then 10 else ChunkOffset(cs, k - 1) + 4 + |cs[k - 1]|
  }

  /** The container, byte by byte: 0x89, "RJP" and a zero byte, version 1, the chunk count, and each
      chunk behind its length. */
  lemma {:induction false} ContainerLayout(cs: seq<Bytes>)
    requires 1 <= |cs| <= 65_536 && forall i :: 0 <= i < |cs| ==> 0 < |cs[i]| < 0x1_0000_0000
    ensures ValidChunks(cs)
    ensures var b := Container(cs);
      && |b| == ChunkOffset(cs, |cs|) && b[..6] == [0x89, 0x52, 0x4A, 0x50, 0x00, 1] && U32At(b, 6, |cs|)
      && forall k :: 0 <= k < |cs| ==> ChunkAt(b, cs, k)
  {
    assert forall i :: 0 <= i < |cs| ==> ValidChunk(cs[i]);
    hide Body;
    hide ChunkAt;
    hide U32At;
    var (b, p) := (Container(cs), Prefix(|cs|));
    assert b[..10] == p;
    assert b[..6] == p[..6] && b[6..10] == Le4(|cs|);
    ReadsU32(b, 6, |cs|);
    assert cs[..|cs|] == cs;
    BodyEnds(cs, |cs|);
    forall k | 0 <= k < |cs| ensures ChunkAt(b, cs, k) { ChunkPlaced(cs, k); }
  }

  lemma {:induction false} BodyEnds(cs: seq<Bytes>, k: nat)
    requires k <= |cs| && forall i :: 0 <= i < |cs| ==> ValidChunk(cs[i])
    ensures 10 + |Body(cs[..k])| == ChunkOffset(cs, k) && Body(cs[..k]) <= Body(cs)
    decreases |cs| - k
  {
    hide Body;
    BodyLengths(cs, k);
    if k < |cs| {
      BodyEnds(cs, k + 1);
      BodySnoc(cs, k);
    } else {
      assert cs[..k] == cs;
    }
  }

  lemma {:induction false} BodyLengths(cs: seq<Bytes>, k: nat)
    requires k <= |cs| && forall i :: 0 <= i < |cs| ==> ValidChunk(cs[i])
    ensures 10 + |Body(cs[..k])| == ChunkOffset(cs, k)
  {
    if k == 0 {
      assert cs[..0] == [];
    } else {
      BodyLengths(cs, k - 1);
      BodySnoc(cs, k - 1);
    }
  }

  lemma {:induction false} ChunkPlaced(cs: seq<Bytes>, k: nat)
    requires ValidChunks(cs) && k < |cs|
    ensures ChunkAt(Container(cs), cs, k)
  {
    hide Body;
    hide Prefix;
    hide U32At;
    BodyEnds(cs, k);
    BodyEnds(cs, k + 1);
    BodySnoc(cs, k);
    var (b, at, c) := (Container(cs), ChunkOffset(cs, k), cs[k]);
    var (p, front) := (Prefix(|cs|), Body(cs[..k]));
    assert ValidChunk(c);
    var n := at + 4 + |c|;
    assert b[..n] == p + Body(cs[..k + 1]) == p + front + Le4(|c|) + c;
    assert b[at..at + 4] == b[..n][at..at + 4] == Le4(|c|);
    assert b[at + 4..n] == b[..n][at + 4..n] == c;
    ReadsU32(b, at, |c|);
  }

  ghost predicate ChunkAt(b: Bytes, cs: seq<Bytes>, k: nat)
    requires k < |cs|
  {
    var at := ChunkOffset(cs, k);
    U32At(b, at, |cs[k]|) && at + 4 + |cs[k]| <= |b| && b[at + 4..at + 4 + |cs[k]|] == cs[k]
  }

  /** What a decoder makes of a first byte, a kind or flags it does not know, whatever follows. */
  lemma UnknownBytes(b: Bytes)
    requires b != []
    ensures b[0] !in {1, 2} <==> Decode(b) == Err(UnknownFormat(b[0]))
    ensures |b| > 1 && b[0] in {1, 2} ==> (b[1] !in {0, 1, 2} <==> Decode(b) == Err(UnknownKind(b[1])))
    ensures |b| > 2 && b[0] in {1, 2} && b[1] in {0, 1, 2} ==>
      (b[2] >= 4 <==> Decode(b).Err? && Decode(b).error.UnknownFlags?)
  {
    hide Utf8;
    hide FromLe;
  }

  /** The answer to every frame whose first three bytes are known: cut short, a run id that is not
      UTF-8, an empty frame with a payload, or a header. */
  lemma {:induction false} DecodeAnswers(b: Bytes)
    requires |b| >= 3 && b[0] in {1, 2} && b[1] in {0, 1, 2} && b[2] < 4
    ensures var (id, totals) := (b[2] % 2 == 1, b[2] >= 2);
      var cutId := |b| < 11 || (id && (|b| < 12 || |b| < 12 + b[11] as int));
      var badId := !cutId && id && !Utf8(b[12..12 + b[11] as int]);
      var at := if cutId || !id then 11 else 12 + b[11] as int;
      var cut := cutId || (!badId && totals && |b| < at + 16);
      var over := !cut && !badId && b[1] == 2 && |b| > at + if totals then 16 else 0;
      && (Decode(b) == Err(Truncated) <==> cut) && (Decode(b) == Err(RunIdNotUtf8) <==> badId)
      && (Decode(b) == Err(EmptyFrameWithPayload) <==> over) && (Decode(b).Ok? <==> !cut && !badId && !over)
  {
    hide Utf8;
    hide FromLe;
    if |b| >= 11 {
      var rest := b[11..];
      assert b[2] % 2 == 1 && |rest| > 0 && |rest| - 1 >= rest[0] ==> rest[1..1 + rest[0]] == b[12..12 + b[11] as int];
    }
  }

  /** The answer of the legacy encoder to what it refuses; everything else it encodes. */
  lemma LegacyRefuses(h: FrameHeader, payload: Bytes)
    requires Typed(h)
    ensures EncodeV1(h, payload) == Err(EEmptyFrameWithPayload) <==> h.kind.EmptyKind? && payload != []
    ensures !(h.kind.EmptyKind? && payload != []) ==>
      (h.runId.Some? && |h.runId.value| > 255 <==>
        EncodeV1(h, payload).Err? && EncodeV1(h, payload) == Err(ERunIdTooLong(|h.runId.value|)))
  {
    hide Utf8;
  }

  /** What a container decoder makes of a bad prefix. */
  lemma BadPrefix(p: Bytes)
    ensures DecodeContainer(p) == Err(MissingSentinel) <==> p == [] || p[0] != 0x89
    ensures DecodeContainer(p) == Err(InvalidMagic) <==>
      |p| >= 10 && p[0] == 0x89 && p[1..5] != [0x52, 0x4A, 0x50, 0x00]
    ensures |p| >= 10 && p[..5] == [0x89, 0x52, 0x4A, 0x50, 0x00] ==>
      (p[5] != 1 <==> DecodeContainer(p) == Err(UnknownVersion(p[5])))
    ensures |p| >= 10 && p[..6] == [0x89, 0x52, 0x4A, 0x50, 0x00, 1] ==>
      && (U32At(p, 6, 0) <==> DecodeContainer(p) == Err(NoChunks))
      && (!(exists n :: n <= 65_536 && U32At(p, 6, n)) <==>
          DecodeContainer(p).Err? && DecodeContainer(p).error.TooManyChunks?)
  {
    hide FromLe;
    if |p| >= 10 {
      FourBytes(p[6..10]);
      TakeErrors(p[10..], FromLe(p[6..10]));
      assert p[1..5] == p[..5][1..] && p[..5] == p[..6][..5] && p[5] == p[..6][5];
      assert U32At(p, 6, FromLe(p[6..10]));
    }
    hide TakeChunks;
  }

  lemma {:induction false} TakeErrors(rest: Bytes, n: nat)
    ensures TakeChunks(rest, n).Err? ==> TakeChunks(rest, n).error in {Truncated, EmptyChunk}
  {
    hide FromLe;
    if n > 0 && |rest| >= 4 {
      var len := FromLe(rest[..4]);
      if 0 < len <= |rest| - 4 { TakeErrors(rest[4 + len..], n - 1); }
    }
  }

  /** Legacy frames start with byte 1, current ones with byte 2. */
  lemma FrameVersions(h: FrameHeader, payload: Bytes, cs: seq<Bytes>)
    requires Typed(h)
    ensures EncodeV1(h, payload).Ok? ==> EncodeV1(h, payload).value[..1] == [1]
    ensures EncodeV2(h, cs).Ok? ==> EncodeV2(h, cs).value[..1] == [2]
  {
    hide Utf8;
    hide Container;
    hide Refusal;
  }
}
