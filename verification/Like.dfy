/** The LIKE matcher of rust/src/predicate.rs: a pattern compiled to tokens, matched with a single
    restart point, against the recursive meaning of LIKE over bytes. */
module Like {
  import opened Values

  type Bytes = seq<Byte>

  const PERCENT: Byte := 37
  const UNDERSCORE: Byte := 95
  const BACKSLASH: Byte := 92

  function Lower(b: Byte): Byte {
    if 65 <= b <= 90 then b + 32 else b
  }

  /** Bytes equal, up to ASCII case when asked. */
  predicate SameByte(ci: bool, a: Byte, b: Byte) {
    if ci then Lower(a) == Lower(b) else a == b
  }

  predicate Special(b: Byte) {
    b == PERCENT || b == UNDERSCORE || b == BACKSLASH
  }

  // ---- what LIKE means ----

  /** `%` any run of bytes, `_` any one byte, `\\` before a special byte that byte itself, before
      any other byte both; everything else itself. */
  predicate Matches(p: Bytes, t: Bytes, ci: bool)
    decreases |p|, |t|
  {
    if p == [] then t == []
    else if p[0] == PERCENT then Matches(p[1..], t, ci) || (t != [] && Matches(p, t[1..], ci))
    else if p[0] == UNDERSCORE then t != [] && Matches(p[1..], t[1..], ci)
    else if p[0] == BACKSLASH && |p| > 1 then
      if Special(p[1]) then t != [] && SameByte(ci, t[0], p[1]) && Matches(p[2..], t[1..], ci)
      else |t| > 1 && SameByte(ci, t[0], BACKSLASH) && SameByte(ci, t[1], p[1]) && Matches(p[2..], t[2..], ci)
    else t != [] && SameByte(ci, t[0], p[0]) && Matches(p[1..], t[1..], ci)
  }

  /** Two bytes are the same letter in the two ASCII cases. */
  predicate CasePair(a: Byte, b: Byte) {
    (65 <= a <= 90 && b == a + 32) || (65 <= b <= 90 && a == b + 32)
  }

  /** A byte matches itself only, or, when case is ignored, also the other case of its letter. */
  predicate ByteMatches(ci: bool, a: Byte, b: Byte) {
    a == b || (ci && CasePair(a, b))
  }

  lemma SameByteIs(ci: bool, a: Byte, b: Byte)
    ensures SameByte(ci, a, b) <==> ByteMatches(ci, a, b)
  {
  }

  /** The meaning by the first byte of the pattern, its special bytes by their codes: 37 is `%`, 95
      is `_`, 92 is the escape. */
  lemma {:induction false} MatchesFirst(p: Bytes, t: Bytes, ci: bool)
    ensures p == [] ==> (Matches(p, t, ci) <==> t == [])
    ensures p != [] && p[0] == 37 ==> (Matches(p, t, ci) <==> exists k :: 0 <= k <= |t| && Matches(p[1..], t[k..], ci))
    ensures p != [] && p[0] == 95 ==> (Matches(p, t, ci) <==> t != [] && Matches(p[1..], t[1..], ci))
    ensures |p| > 1 && p[0] == 92 && p[1] in {37, 95, 92} ==>
      (Matches(p, t, ci) <==> t != [] && ByteMatches(ci, t[0], p[1]) && Matches(p[2..], t[1..], ci))
    ensures |p| > 1 && p[0] == 92 && p[1] !in {37, 95, 92} ==>
      (Matches(p, t, ci) <==> |t| > 1 && t[0] == 92 && ByteMatches(ci, t[1], p[1]) && Matches(p[2..], t[2..], ci))
    ensures p == [92] ==> (Matches(p, t, ci) <==> t == [92])
    ensures p != [] && p[0] !in {37, 95, 92} ==>
      (Matches(p, t, ci) <==> t != [] && ByteMatches(ci, t[0], p[0]) && Matches(p[1..], t[1..], ci))
  {
    if p != [] && p[0] == 37 { AnyRun(p, t, ci); }
  }

  lemma {:induction false} AnyRun(p: Bytes, t: Bytes, ci: bool)
    requires p != [] && p[0] == 37
    ensures Matches(p, t, ci) <==> exists k :: 0 <= k <= |t| && Matches(p[1..], t[k..], ci)
    decreases |t|
  {
    assert t[0..] == t;
    if t != [] {
      AnyRun(p, t[1..], ci);
      forall k | 0 < k <= |t| ensures t[k..] == t[1..][k - 1..] {}
      if k :| 0 <= k <= |t[1..]| && Matches(p[1..], t[1..][k..], ci) {
        assert Matches(p[1..], t[k + 1..], ci);
      }
      if k :| 0 <= k <= |t| && Matches(p[1..], t[k..], ci) {
        if k > 0 { assert Matches(p[1..], t[1..][k - 1..], ci); }
      }
    }
  }

  ghost predicate Recased(t: Bytes, u: Bytes) {
    |t| == |u| && forall i :: 0 <= i < |t| ==> ByteMatches(true, t[i], u[i])
  }

  /** ILIKE does not see the case of the text. */
  lemma {:induction false} RecasedMatches(p: Bytes, t: Bytes, u: Bytes)
    requires Recased(t, u)
    ensures Matches(p, t, true) == Matches(p, u, true)
    decreases |p|, |t|
  {
    if p == [] { return; }
    assert forall n :: 0 <= n <= |t| ==> Recased(t[n..], u[n..]);
    if p[0] == PERCENT {
      RecasedMatches(p[1..], t, u);
      if t != [] { RecasedMatches(p, t[1..], u[1..]); }
    } else if p[0] == BACKSLASH && |p| > 1 {
      if Special(p[1]) {
        if t != [] { RecasedMatches(p[2..], t[1..], u[1..]); }
      } else {
        if |t| > 1 { RecasedMatches(p[2..], t[2..], u[2..]); }
      }
    } else {
      if t != [] { RecasedMatches(p[1..], t[1..], u[1..]); }
    }
  }

  /** A pattern without special bytes matches itself only, or any re-casing of itself. */
  lemma {:induction false} PlainMatches(p: Bytes, t: Bytes)
    requires forall i :: 0 <= i < |p| ==> p[i] !in {37, 95, 92}
    ensures Matches(p, t, false) <==> t == p
    ensures Matches(p, t, true) <==> Recased(t, p)
    decreases |p|
  {
    if p != [] && t != [] {
      PlainMatches(p[1..], t[1..]);
      assert p == [p[0]] + p[1..] && t == [t[0]] + t[1..];
      assert Recased(t, p) <==> ByteMatches(true, t[0], p[0]) && Recased(t[1..], p[1..]);
    }
  }

  // ---- one element at a time ----

  datatype Piece = Lit1(b: Byte) | One1 | Any1

  /** A pattern read off byte by byte. */
  function Pieces(p: Bytes): seq<Piece>
    decreases |p|
  {
    if p == [] then []
    else if p[0] == PERCENT then [Any1] + Pieces(p[1..])
    else if p[0] == UNDERSCORE then [One1] + Pieces(p[1..])
    else if p[0] == BACKSLASH && |p| > 1 then
      if Special(p[1]) then [Lit1(p[1])] + Pieces(p[2..])
      else [Lit1(BACKSLASH), Lit1(p[1])] + Pieces(p[2..])
    else [Lit1(p[0])] + Pieces(p[1..])
  }

  predicate PM(ps: seq<Piece>, t: Bytes, ci: bool)
    decreases |ps|, |t|
  {
    if ps == [] then t == []
    else match ps[0]
      case Any1 => PM(ps[1..], t, ci) || (t != [] && PM(ps, t[1..], ci))
      case One1 => t != [] && PM(ps[1..], t[1..], ci)
      case Lit1(b) => t != [] && SameByte(ci, t[0], b) && PM(ps[1..], t[1..], ci)
  }

  lemma {:induction false} PiecesMean(p: Bytes, t: Bytes, ci: bool)
    ensures PM(Pieces(p), t, ci) == Matches(p, t, ci)
    decreases |p|, |t|
  {
    if p == [] { return; }
    var ps := Pieces(p);
    if p[0] == PERCENT {
      assert ps[1..] == Pieces(p[1..]);
      PiecesMean(p[1..], t, ci);
      if t != [] { PiecesMean(p, t[1..], ci); }
    } else if p[0] == BACKSLASH && |p| > 1 {
      if Special(p[1]) {
        assert ps[1..] == Pieces(p[2..]);
        if t != [] { PiecesMean(p[2..], t[1..], ci); }
      } else {
        assert ps[1..][1..] == Pieces(p[2..]) && ps[1..][0] == Lit1(p[1]);
        if |t| > 1 { assert t[1..][1..] == t[2..]; PiecesMean(p[2..], t[2..], ci); }
      }
    } else {
      assert ps[1..] == Pieces(p[1..]);
      if t != [] { PiecesMean(p[1..], t[1..], ci); }
    }
  }

  /** Runs of `%` shortened to one. */
  function Norm(ps: seq<Piece>): seq<Piece> {
    if |ps| < 2 then ps
    else if ps[0] == Any1 && ps[1] == Any1 then Norm(ps[1..])
    else [ps[0]] + Norm(ps[1..])
  }

  lemma {:induction false} TwoAny(ps: seq<Piece>, t: Bytes, ci: bool)
    requires |ps| >= 2 && ps[0] == Any1 && ps[1] == Any1
    ensures PM(ps, t, ci) == PM(ps[1..], t, ci)
    decreases |t|
  {
    if t != [] { TwoAny(ps, t[1..], ci); }
  }

  lemma {:induction false} NormMeans(ps: seq<Piece>, t: Bytes, ci: bool)
    ensures PM(Norm(ps), t, ci) == PM(ps, t, ci)
    decreases |ps|, |t|
  {
    if |ps| >= 2 {
      if ps[0] == Any1 && ps[1] == Any1 {
        TwoAny(ps, t, ci);
        NormMeans(ps[1..], t, ci);
      } else {
        var ns := Norm(ps);
        assert ns[1..] == Norm(ps[1..]) && ns[0] == ps[0];
        if ps[0] == Any1 {
          NormMeans(ps[1..], t, ci);
          if t != [] { NormMeans(ps, t[1..], ci); }
        } else if t != [] {
          NormMeans(ps[1..], t[1..], ci);
        }
      }
    }
  }

  /** A second `%` in a row changes nothing. */
  lemma {:induction false} NormDrops(a: seq<Piece>, b: seq<Piece>)
    requires a != [] && a[|a| - 1] == Any1
    ensures Norm(a + [Any1] + b) == Norm(a + b)
  {
    var (x, y) := (a + [Any1] + b, a + b);
    if |a| == 1 {
      assert x[1..] == y;
    } else {
      NormDrops(a[1..], b);
      assert x[1..] == a[1..] + [Any1] + b && y[1..] == a[1..] + b;
    }
  }

  // ---- compiling ----

  datatype Tok = Lit(run: Bytes) | One | Any

  function Literal(run: Bytes): (ps: seq<Piece>)
    ensures |ps| == |run| && forall i :: 0 <= i < |run| ==> ps[i] == Lit1(run[i])
  {
    seq(|run|, i requires 0 <= i < |run| => Lit1(run[i]))
  }

  function PiecesOf(tok: Tok): seq<Piece> {
    match tok case Lit(run) => Literal(run) case One => [One1] case Any => [Any1]
  }

  function Expand(toks: seq<Tok>): seq<Piece> {
    if toks == [] then [] else Expand(toks[..|toks| - 1]) + PiecesOf(toks[|toks| - 1])
  }

  lemma ExpandSnoc(toks: seq<Tok>, tok: Tok)
    ensures Expand(toks + [tok]) == Expand(toks) + PiecesOf(tok)
  {
    assert (toks + [tok])[..|toks|] == toks;
  }

  lemma ExpandLast(toks: seq<Tok>)
    requires toks != [] && toks[|toks| - 1] == Any
    ensures Expand(toks) != [] && Expand(toks)[|Expand(toks)| - 1] == Any1
  {
  }

  lemma LiteralSnoc(run: Bytes, b: Byte)
    ensures Literal(run + [b]) == Literal(run) + [Lit1(b)]
    ensures Literal([]) == []
  {
  }

  /** `flush` */
  function Flushed(toks: seq<Tok>, lit: Bytes): seq<Tok> {
    if lit == [] then toks else toks + [Lit(lit)]
  }

  lemma FlushedExpands(toks: seq<Tok>, lit: Bytes)
    ensures Expand(Flushed(toks, lit)) == Expand(toks) + Literal(lit)
  {
    if lit == [] { assert Literal(lit) == []; } else { ExpandSnoc(toks, Lit(lit)); }
  }

  lemma Regroup(a: seq<Piece>, b: seq<Piece>, c: seq<Piece>, d: seq<Piece>)
    ensures a + b + (c + d) == a + (b + c) + d
    ensures a + b + (c + d) == (a + b) + c + d
  {
  }

  /** `compile_with_case`: the tokens say what the pattern says, up to runs of `%`. */
  method Compile(p: Bytes) returns (toks: seq<Tok>)
    ensures Norm(Expand(toks)) == Norm(Pieces(p))
  {
    hide *;
    toks := [];
    var lit: Bytes := [];
    var i := 0;
    Starts(p);
    while i < |p|
      invariant i <= |p| && Norm(Expand(toks) + Literal(lit) + Pieces(p[i..])) == Norm(Pieces(p))
      decreases |p| - i
    {
      var b := p[i];
      ghost var ps := Pieces(p[i..]);
      PiecesStep(p, i);
      if b == BACKSLASH && i + 1 < |p| {
        var n := p[i + 1];
        if Special(n) {
          Regroup(Expand(toks), Literal(lit), [Lit1(n)], Pieces(p[i + 2..]));
          LiteralSnoc(lit, n);
          lit := lit + [n];
        } else {
          Regroup(Expand(toks), Literal(lit), [Lit1(BACKSLASH), Lit1(n)], Pieces(p[i + 2..]));
          LiteralSnoc(lit, BACKSLASH);
          LiteralSnoc(lit + [BACKSLASH], n);
          assert Literal(lit + [BACKSLASH] + [n]) == Literal(lit) + [Lit1(BACKSLASH), Lit1(n)];
          lit := lit + [BACKSLASH] + [n];
        }
        i := i + 2;
      } else if b == PERCENT {
        FlushedExpands(toks, lit);
        Regroup(Expand(toks), Literal(lit), [Any1], Pieces(p[i + 1..]));
        toks := Flushed(toks, lit);
        if toks == [] || toks[|toks| - 1] != Any {
          ExpandSnoc(toks, Any);
          AnyIs();
          toks := toks + [Any];
        } else {
          ExpandLast(toks);
          NormDrops(Expand(toks), Pieces(p[i + 1..]));
        }
        lit := [];
        LiteralSnoc([], b);
        assert Expand(toks) + [] == Expand(toks);
        i := i + 1;
      } else if b == UNDERSCORE {
        FlushedExpands(toks, lit);
        ExpandSnoc(Flushed(toks, lit), One);
        AnyIs();
        Regroup(Expand(toks), Literal(lit), [One1], Pieces(p[i + 1..]));
        toks := Flushed(toks, lit) + [One];
        lit := [];
        LiteralSnoc([], b);
        assert Expand(toks) + [] == Expand(toks);
        i := i + 1;
      } else {
        Regroup(Expand(toks), Literal(lit), [Lit1(b)], Pieces(p[i + 1..]));
        LiteralSnoc(lit, b);
        lit := lit + [b];
        i := i + 1;
      }
    }
    Ends(p, i);
    FlushedExpands(toks, lit);
    assert Expand(toks) + Literal(lit) + [] == Expand(toks) + Literal(lit);
    toks := Flushed(toks, lit);
  }

  lemma Starts(p: Bytes)
    ensures Expand([]) == [] && Literal([]) == [] && p[0..] == p && [] + [] + Pieces(p) == Pieces(p)
  {
  }

  lemma Ends(p: Bytes, i: nat)
    requires i == |p|
    ensures Pieces(p[i..]) == []
  {
  }

  lemma AnyIs()
    ensures PiecesOf(Any) == [Any1] && PiecesOf(One) == [One1]
  {
  }

  lemma {:induction false} PiecesStep(p: Bytes, i: nat)
    requires i < |p|
    ensures var (b, ps) := (p[i], Pieces(p[i..]));
      if b == BACKSLASH && i + 1 < |p| then
        ps == (if Special(p[i + 1]) then [Lit1(p[i + 1])] else [Lit1(BACKSLASH), Lit1(p[i + 1])]) + Pieces(p[i + 2..])
      else ps == [if b == PERCENT then Any1 else if b == UNDERSCORE then One1 else Lit1(b)] + Pieces(p[i + 1..])
  {
    assert p[i..][1..] == p[i + 1..];
    if i + 1 < |p| { assert p[i..][2..] == p[i + 2..] && p[i..][1] == p[i + 1]; }
  }

  // ---- matching ----

  function From(toks: seq<Tok>, ti: nat): seq<Piece>
    requires ti <= |toks|
    decreases |toks| - ti
  {
    if ti == |toks| then [] else PiecesOf(toks[ti]) + From(toks, ti + 1)
  }

  lemma {:induction false} FromStart(toks: seq<Tok>, ti: nat)
    requires ti <= |toks|
    ensures Expand(toks) == Expand(toks[..ti]) + From(toks, ti)
    decreases |toks| - ti
  {
    hide *;
    FromIs(toks, ti);
    if ti == |toks| {
      assert toks[..ti] == toks && Expand(toks) + [] == Expand(toks);
    } else {
      FromStart(toks, ti + 1);
      assert toks[..ti + 1] == toks[..ti] + [toks[ti]];
      ExpandSnoc(toks[..ti], toks[ti]);
      Regroup(Expand(toks[..ti]), [], PiecesOf(toks[ti]), From(toks, ti + 1));
      assert Expand(toks[..ti]) + [] == Expand(toks[..ti]);
    }
  }

  lemma FromIs(toks: seq<Tok>, ti: nat)
    requires ti <= |toks|
    ensures From(toks, ti) == if ti == |toks| then [] else PiecesOf(toks[ti]) + From(toks, ti + 1)
  {
  }

  /** The tokens from `ti` on match the text from `si` on. */
  ghost predicate At(toks: seq<Tok>, ti: nat, text: Bytes, si: nat, ci: bool)
    requires ti <= |toks| && si <= |text|
  {
    PM(From(toks, ti), text[si..], ci)
  }

  /** They match from some position at or after `lo`. */
  ghost predicate Later(toks: seq<Tok>, st: nat, text: Bytes, lo: nat, ci: bool)
    requires st <= |toks|
  {
    exists k :: lo <= k <= |text| && At(toks, st, text, k, ci)
  }

  /** `lit_matches` */
  predicate RunAt(text: Bytes, si: nat, run: Bytes, ci: bool) {
    si + |run| <= |text| && forall i :: 0 <= i < |run| ==> SameByte(ci, text[si + i], run[i])
  }

  lemma {:induction false} RunMatch(run: Bytes, rest: seq<Piece>, text: Bytes, si: nat, ci: bool)
    requires si <= |text|
    ensures PM(Literal(run) + rest, text[si..], ci) <==> RunAt(text, si, run, ci) && PM(rest, text[si + |run|..], ci)
    decreases |run|
  {
    var ps := Literal(run) + rest;
    if run == [] {
      assert ps == rest;
    } else if si < |text| {
      assert ps[1..] == Literal(run[1..]) + rest && text[si..][1..] == text[si + 1..] && text[si..][0] == text[si];
      RunMatch(run[1..], rest, text, si + 1, ci);
      assert RunAt(text, si, run, ci) <==> SameByte(ci, text[si], run[0]) && RunAt(text, si + 1, run[1..], ci) by {
        if RunAt(text, si, run, ci) {
          forall i | 0 <= i < |run[1..]| ensures SameByte(ci, text[si + 1 + i], run[1..][i]) {
            assert SameByte(ci, text[si + (i + 1)], run[i + 1]);
          }
        }
        if SameByte(ci, text[si], run[0]) && RunAt(text, si + 1, run[1..], ci) {
          forall i | 0 <= i < |run| ensures SameByte(ci, text[si + i], run[i]) {
            if i > 0 { assert SameByte(ci, text[si + 1 + (i - 1)], run[1..][i - 1]); }
          }
        }
      }
    }
  }

  lemma {:induction false} AnyMatch(rest: seq<Piece>, text: Bytes, si: nat, ci: bool)
    requires si <= |text|
    ensures PM([Any1] + rest, text[si..], ci) <==> exists k :: si <= k <= |text| && PM(rest, text[k..], ci)
    decreases |text| - si
  {
    assert ([Any1] + rest)[1..] == rest;
    if si < |text| {
      AnyMatch(rest, text, si + 1, ci);
      assert text[si..][1..] == text[si + 1..];
    }
  }

  /** One token's step. */
  lemma {:induction false} AtStep(toks: seq<Tok>, ti: nat, text: Bytes, si: nat, ci: bool)
    requires ti <= |toks| && si <= |text|
    ensures ti == |toks| ==> (At(toks, ti, text, si, ci) <==> si == |text|)
    ensures ti < |toks| && toks[ti].Lit? ==>
      (At(toks, ti, text, si, ci) <==>
        RunAt(text, si, toks[ti].run, ci) && At(toks, ti + 1, text, si + |toks[ti].run|, ci))
    ensures ti < |toks| && toks[ti].One? ==>
      (At(toks, ti, text, si, ci) <==> si < |text| && At(toks, ti + 1, text, si + 1, ci))
    ensures ti < |toks| && toks[ti].Any? ==> (At(toks, ti, text, si, ci) <==> Later(toks, ti + 1, text, si, ci))
  {
    if ti < |toks| {
      match toks[ti] {
        case Lit(run) => RunMatch(run, From(toks, ti + 1), text, si, ci);
        case One =>
          assert ([One1] + From(toks, ti + 1))[1..] == From(toks, ti + 1);
          if si < |text| { assert text[si..][1..] == text[si + 1..]; }
        case Any =>
          AnyMatch(From(toks, ti + 1), text, si, ci);
          if At(toks, ti, text, si, ci) {
            var k :| si <= k <= |text| && PM(From(toks, ti + 1), text[k..], ci);
            assert At(toks, ti + 1, text, k, ci);
          }
          if Later(toks, ti + 1, text, si, ci) {
            var k :| si <= k <= |text| && At(toks, ti + 1, text, k, ci);
            assert PM(From(toks, ti + 1), text[k..], ci);
          }
      }
    }
  }

  /** The text a stretch of tokens without `%` takes. */
  function Span(toks: seq<Tok>, st: nat, ti: nat): nat
    requires st <= ti <= |toks|
  {
    if st == ti then 0 else Span(toks, st, ti - 1) + if toks[ti - 1].Lit? then |toks[ti - 1].run| else 1
  }

  ghost predicate NoAny(toks: seq<Tok>, st: nat, ti: nat)
    requires st <= ti <= |toks|
  {
    forall i :: st <= i < ti ==> !toks[i].Any?
  }

  /** Tokens without `%` leave only one way to go on. */
  lemma {:induction false} FixedStretch(toks: seq<Tok>, st: nat, ti: nat, text: Bytes, k: nat, ci: bool)
    requires st <= ti <= |toks| && NoAny(toks, st, ti) && k <= |text| && At(toks, st, text, k, ci)
    ensures k + Span(toks, st, ti) <= |text| && At(toks, ti, text, k + Span(toks, st, ti), ci)
    decreases ti
  {
    hide At;
    if st < ti {
      FixedStretch(toks, st, ti - 1, text, k, ci);
      AtStep(toks, ti - 1, text, k + Span(toks, st, ti - 1), ci);
    }
  }

  lemma LaterStep(toks: seq<Tok>, st: nat, text: Bytes, lo: nat, ci: bool)
    requires st <= |toks|
    ensures lo <= |text| ==>
      (Later(toks, st, text, lo, ci) <==> At(toks, st, text, lo, ci) || Later(toks, st, text, lo + 1, ci))
    ensures lo > |text| ==> !Later(toks, st, text, lo, ci)
  {
    hide At;
  }

  /** The latest `%` makes every earlier restart redundant: anything reachable by moving the
      earlier one is reachable by moving this one. */
  lemma {:induction false} LatestSuffices(toks: seq<Tok>, st: nat, ss: nat, ti: nat, si: nat, text: Bytes, ci: bool)
    requires st <= ti < |toks| && toks[ti].Any? && NoAny(toks, st, ti) && si == ss + Span(toks, st, ti) && si <= |text|
    requires Later(toks, st, text, ss + 1, ci)
    ensures Later(toks, ti + 1, text, si, ci)
  {
    hide At;
    var k :| ss + 1 <= k <= |text| && At(toks, st, text, k, ci);
    FixedStretch(toks, st, ti, text, k, ci);
    AtStep(toks, ti, text, k + Span(toks, st, ti), ci);
    var k' :| k + Span(toks, st, ti) <= k' <= |text| && At(toks, ti + 1, text, k', ci);
  }

  /** `matches`: one restart point, the latest `%`, is enough. */
  method MatchLoop(toks: seq<Tok>, text: Bytes, ci: bool) returns (r: bool)
    ensures r <==> PM(Expand(toks), text, ci)
  {
    hide *;
    var ti: nat, si: nat := 0, 0;
    var star: Option<(nat, nat)> := None;
    WholeAt(toks, text, ci);
    SpanNone(toks, 0);
    while true
      invariant ti <= |toks| && si <= |text|
      invariant star.Some? ==>
        && 1 <= star.value.0 <= ti && NoAny(toks, star.value.0, ti) && si == star.value.1 + Span(toks, star.value.0, ti)
      invariant At(toks, 0, text, 0, ci)
        <==> At(toks, ti, text, si, ci) || (star.Some? && Later(toks, star.value.0, text, star.value.1 + 1, ci))
      decreases |toks| - (if star.Some? then star.value.0 else 0),
        if star.Some? then |text| - star.value.1 else 0,
        |toks| - ti
    {
      AtStep(toks, ti, text, si, ci);
      if ti < |toks| && toks[ti].Any? {
        if star.Some? && Later(toks, star.value.0, text, star.value.1 + 1, ci) {
          LatestSuffices(toks, star.value.0, star.value.1, ti, si, text, ci);
        }
        LaterStep(toks, ti + 1, text, si, ci);
        ti := ti + 1;
        star := Some((ti, si));
        SpanNone(toks, ti);
        continue;
      }
      var step := if ti == |toks| then 0 else if toks[ti].Lit? then |toks[ti].run| else 1;
      var ok := if ti == |toks| then si == |text|
        else if toks[ti].Lit? then RunAt(text, si, toks[ti].run, ci)
        else si < |text|;
      if ti < |toks| { RunFits(text, si, if toks[ti].Lit? then toks[ti].run else [], ci); }
      if ok {
        if ti == |toks| { return true; }
        if star.Some? { SpanSnoc(toks, star.value.0, ti); }
        si := si + step;
        ti := ti + 1;
      } else if star.Some? {
        var (st, ss) := star.value;
        LaterStep(toks, st, text, ss + 1, ci);
        SpanNone(toks, st);
        if ss + 1 > |text| { return false; }
        ti, si, star := st, ss + 1, Some((st, ss + 1));
      } else {
        return false;
      }
    }
  }

  lemma WholeAt(toks: seq<Tok>, text: Bytes, ci: bool)
    ensures At(toks, 0, text, 0, ci) <==> PM(Expand(toks), text, ci)
  {
    FromStart(toks, 0);
    assert toks[..0] == [] && text[0..] == text && [] + From(toks, 0) == From(toks, 0);
  }

  lemma SpanNone(toks: seq<Tok>, st: nat)
    requires st <= |toks|
    ensures Span(toks, st, st) == 0 && NoAny(toks, st, st)
  {
  }

  lemma SpanSnoc(toks: seq<Tok>, st: nat, ti: nat)
    requires st <= ti < |toks| && NoAny(toks, st, ti) && !toks[ti].Any?
    ensures NoAny(toks, st, ti + 1)
    ensures Span(toks, st, ti + 1) == Span(toks, st, ti) + if toks[ti].Lit? then |toks[ti].run| else 1
  {
  }

  lemma RunFits(text: Bytes, si: nat, run: Bytes, ci: bool)
    ensures RunAt(text, si, run, ci) ==> si + |run| <= |text|
  {
  }

  /** A compiled pattern accepts exactly the texts LIKE (or ILIKE) does. */
  method LikeMatches(p: Bytes, text: Bytes, ci: bool) returns (r: bool)
    ensures r <==> Matches(p, text, ci)
  {
    hide *;
    var toks := Compile(p);
    NormMeans(Expand(toks), text, ci);
    NormMeans(Pieces(p), text, ci);
    PiecesMean(p, text, ci);
    r := MatchLoop(toks, text, ci);
  }
}
