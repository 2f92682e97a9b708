/**
  What the outcome relation of src/generate/regex_gen.rs allows: the strings a
  concatenation, a repetition and a class can yield, when each of them fails,
  and how, and what the source's own test expression yields.
 */
module RegexGenProps {
  import opened Common
  import Utf8
  import opened RegexGen

  /** Each node yields `Ok` with the string at the same position. */
  ghost predicate AllProduce(hs: seq<Hir>, parts: seq<string>)
  {
    |hs| == |parts| && forall i :: 0 <= i < |hs| ==> Produces(hs[i], Ok(parts[i]))
  }

  /** The same, stated one node at a time from the end, as a concatenation builds it up. */
  ghost predicate AllInTurn(hs: seq<Hir>, parts: seq<string>)
  {
    |hs| == |parts| &&
    (parts == [] || (AllInTurn(hs[..|hs| - 1], parts[..|parts| - 1]) && Produces(hs[|hs| - 1], Ok(parts[|parts| - 1]))))
  }

  lemma {:induction false} AllInTurnIsAll(hs: seq<Hir>, parts: seq<string>)
    ensures AllInTurn(hs, parts) <==> AllProduce(hs, parts)
  {
    if |hs| == |parts| && parts != [] {
      var n := |parts| - 1;
      AllInTurnIsAll(hs[..n], parts[..n]);
      assert forall i :: 0 <= i < n ==> hs[..n][i] == hs[i] && parts[..n][i] == parts[i];
    }
  }

  /** The node yields `Ok` with each of the strings. */
  ghost predicate EachProduced(h: Hir, parts: seq<string>)
  {
    forall i :: 0 <= i < |parts| ==> Produces(h, Ok(parts[i]))
  }

  /** The same, stated one string at a time from the end, as repetitions build it up. */
  ghost predicate ProducedInTurn(h: Hir, parts: seq<string>)
  {
    parts == [] || (ProducedInTurn(h, parts[..|parts| - 1]) && Produces(h, Ok(parts[|parts| - 1])))
  }

  lemma {:induction false} InTurnIsEach(h: Hir, parts: seq<string>)
    ensures ProducedInTurn(h, parts) <==> EachProduced(h, parts)
  {
    if parts != [] {
      var n := |parts| - 1;
      InTurnIsEach(h, parts[..n]);
      assert forall i :: 0 <= i < n ==> parts[..n][i] == parts[i];
    }
  }

  // ---- Concatenation ----

  /** Children that succeed with given strings make the concatenation succeed with their join. */
  lemma {:induction false} ConcatSucceeds(node: Hir, k: nat, parts: seq<string>)
    requires node.Concat? && k <= |node.exprs|
    requires AllInTurn(node.exprs[..k], parts)
    ensures ProducesConcat(node, k, Ok(Flatten(parts)))
  {
    if k > 0 {
      assert node.exprs[..k][..k - 1] == node.exprs[..k - 1];
      ConcatSucceeds(node, k - 1, parts[..k - 1]);
      ConcatStep(node, k - 1, Flatten(parts[..k - 1]), Ok(parts[k - 1]));
    }
  }

  /** The last of `k` children of a concatenation that succeeds: the text before it and the text it added. */
  lemma ConcatLast(node: Hir, k: nat, s: string) returns (p: string, t: string)
    requires node.Concat? && 0 < k <= |node.exprs| && ProducesConcat(node, k, Ok(s))
    ensures ProducesConcat(node, k - 1, Ok(p)) && Produces(node.exprs[k - 1], Ok(t)) && s == p + t
  {
    var prev :| ProducesConcat(node, k - 1, prev) &&
      if prev.Ok? then
        exists x :: Produces(node.exprs[k - 1], x) && Ok(s) == ConcatNext(prev.value, x)
      else Ok(s) == prev;
    var x :| Produces(node.exprs[k - 1], x) && Ok(s) == ConcatNext(prev.value, x);
    p, t := prev.value, x.value;
  }

  /** One more child and the string it yields, and the join grows by it. */
  lemma AllInTurnSnoc(hs: seq<Hir>, parts0: seq<string>, p: string, t: string) returns (parts: seq<string>)
    requires |hs| > 0 && AllInTurn(hs[..|hs| - 1], parts0) && p == Flatten(parts0) && Produces(hs[|hs| - 1], Ok(t))
    ensures AllInTurn(hs, parts) && p + t == Flatten(parts)
  {
    parts := parts0 + [t];
    assert parts[..|parts0|] == parts0;
    FlattenSnoc(parts0, t);
  }

  /** The strings the first `k` children of a concatenation that succeeds yield. */
  lemma {:induction false} ConcatParts(node: Hir, k: nat, s: string) returns (parts: seq<string>)
    requires node.Concat? && k <= |node.exprs|
    requires ProducesConcat(node, k, Ok(s))
    ensures AllInTurn(node.exprs[..k], parts) && s == Flatten(parts)
  {
    if k == 0 {
      parts := [];
    } else {
      var p, t := ConcatLast(node, k, s);
      var parts0 := ConcatParts(node, k - 1, p);
      assert node.exprs[..k][..k - 1] == node.exprs[..k - 1];
      parts := AllInTurnSnoc(node.exprs[..k], parts0, p, t);
    }
  }

  /** A concatenation that does not succeed ends with the outcome of one of its children, unchanged. */
  lemma {:induction false} ConcatFailureFromChild(node: Hir, k: nat, r: GenResult)
    requires node.Concat? && k <= |node.exprs|
    requires ProducesConcat(node, k, r) && !r.Ok?
    ensures exists i :: 0 <= i < k && Produces(node.exprs[i], r)
  {
    var prev :| ProducesConcat(node, k - 1, prev) &&
      if prev.Ok? then
        exists x :: Produces(node.exprs[k - 1], x) && r == ConcatNext(prev.value, x)
      else r == prev;
    if !prev.Ok? {
      ConcatFailureFromChild(node, k - 1, r);
    }
  }

  /** The strings a concatenation yields: exactly the joins of strings its children yield. */
  lemma ConcatOutputs(exprs: seq<Hir>, s: string)
    ensures Produces(Concat(exprs), Ok(s)) <==> exists parts :: AllProduce(exprs, parts) && s == Flatten(parts)
  {
    var node := Concat(exprs);
    assert exprs[..|exprs|] == exprs;
    if Produces(node, Ok(s)) {
      var parts := ConcatParts(node, |exprs|, s);
      AllInTurnIsAll(exprs, parts);
    }
    if exists parts :: AllProduce(exprs, parts) && s == Flatten(parts) {
      var parts :| AllProduce(exprs, parts) && s == Flatten(parts);
      AllInTurnIsAll(exprs, parts);
      ConcatSucceeds(node, |exprs|, parts);
    }
  }

  /** A concatenation fails only as one of its children fails: `Err` stays `Err` and a panic stays a panic. */
  lemma ConcatFailure(exprs: seq<Hir>, r: GenResult)
    requires Produces(Concat(exprs), r) && !r.Ok?
    ensures exists i :: 0 <= i < |exprs| && Produces(exprs[i], r)
  {
    ConcatFailureFromChild(Concat(exprs), |exprs|, r);
  }

  // ---- Repetition ----

  /** Repetitions that succeed with given strings make `|parts|` repetitions succeed with their join. */
  lemma {:induction false} RepeatSucceeds(node: Hir, parts: seq<string>)
    requires node.Repetition? && EachProduced(node.inner, parts)
    ensures ProducesRepeat(node, |parts|, Ok(Flatten(parts)))
  {
    if parts != [] {
      var n := |parts| - 1;
      RepeatSucceeds(node, parts[..n]);
      RepeatStep(node, n, Flatten(parts[..n]), Ok(parts[n]));
    }
  }

  /** The last of `k` successful repetitions: the text before it and the text it added. */
  lemma RepeatLast(node: Hir, k: nat, s: string) returns (p: string, t: string)
    requires node.Repetition? && k > 0 && ProducesRepeat(node, k, Ok(s))
    ensures ProducesRepeat(node, k - 1, Ok(p)) && Produces(node.inner, Ok(t)) && s == p + t
  {
    var each := Outcomes(node.inner);
    var prev :| RepeatedBy(each, k - 1, prev) &&
      if prev.Ok? then
        exists x :: each(x) && Ok(s) == RepeatNext(prev.value, x)
      else Ok(s) == prev;
    var x :| each(x) && Ok(s) == RepeatNext(prev.value, x);
    p, t := prev.value, x.value;
  }

  /** One more string the node yields, and the join grows by it. */
  lemma InTurnSnoc(h: Hir, parts0: seq<string>, p: string, t: string) returns (parts: seq<string>)
    requires ProducedInTurn(h, parts0) && p == Flatten(parts0) && Produces(h, Ok(t))
    ensures |parts| == |parts0| + 1 && ProducedInTurn(h, parts) && p + t == Flatten(parts)
  {
    parts := parts0 + [t];
    assert parts[..|parts0|] == parts0;
    FlattenSnoc(parts0, t);
  }

  /** The strings of `k` successful repetitions, one per repetition. */
  lemma {:induction false} RepeatParts(node: Hir, k: nat, s: string) returns (parts: seq<string>)
    requires node.Repetition? && ProducesRepeat(node, k, Ok(s))
    ensures |parts| == k && ProducedInTurn(node.inner, parts) && s == Flatten(parts)
    decreases k
  {
    if k == 0 {
      parts := [];
    } else {
      var p, t := RepeatLast(node, k, s);
      var parts0 := RepeatParts(node, k - 1, p);
      parts := InTurnSnoc(node.inner, parts0, p, t);
    }
  }

  /** `k` repetitions that succeed are the join of `k` strings the repeated node yields. */
  lemma RepeatOkSplits(node: Hir, k: nat, s: string)
    requires node.Repetition? && ProducesRepeat(node, k, Ok(s))
    ensures exists parts :: |parts| == k && EachProduced(node.inner, parts) && s == Flatten(parts)
  {
    var parts := RepeatParts(node, k, s);
    InTurnIsEach(node.inner, parts);
  }

  /**
    Repetitions never end in `Err`: a failed repetition is `unwrap`ped, so the
    only failure is a panic, and it comes from a repetition that failed.
   */
  lemma {:induction false} RepeatFailureIsPanic(node: Hir, k: nat, r: GenResult)
    requires node.Repetition? && ProducesRepeat(node, k, r) && !r.Ok?
    ensures r == Panic
    ensures exists x :: Produces(node.inner, x) && !x.Ok?
  {
    var each := Outcomes(node.inner);
    var prev :| RepeatedBy(each, k - 1, prev) &&
      if prev.Ok? then
        exists x :: each(x) && r == RepeatNext(prev.value, x)
      else r == prev;
    if !prev.Ok? {
      RepeatFailureIsPanic(node, k - 1, r);
    }
  }

  /** The repetition counts each kind allows, as `randomize_repetition` draws them. */
  predicate CountAllowed(kind: RepetitionKind, n: nat)
  {
    match kind
    case ZeroOrOne => n <= 1
    case ZeroOrMore => n <= MAX_REPEAT
    case OneOrMore => 1 <= n <= MAX_REPEAT
    case Range(Exactly(m)) => n == m
    case Range(AtLeast(m)) => m <= n < MAX_REPEAT
    case Range(Bounded(mn, mx)) => mn <= n <= mx && mx < U32_MAX
  }

  /** The count range `Produces` draws from, as a half-open interval, when it draws at all. */
  lemma SampledRange(kind: RepetitionKind, inner: Hir, r: GenResult)
    requires !kind.Range? || !kind.range.Exactly?
    requires !(kind.Range? && kind.range.Bounded? && kind.range.max == U32_MAX)
    ensures var node := Repetition(kind, inner);
      Produces(node, r) <==> SampledRepeat(node, LowCount(kind), HighCount(kind), r)
    ensures forall n: nat :: CountAllowed(kind, n) <==> LowCount(kind) <= n < HighCount(kind)
  {
  }

  function LowCount(kind: RepetitionKind): nat
  {
    match kind
    case ZeroOrOne => 0
    case ZeroOrMore => 0
    case OneOrMore => 1
    case Range(Exactly(m)) => m
    case Range(AtLeast(m)) => m
    case Range(Bounded(mn, _)) => mn
  }

  function HighCount(kind: RepetitionKind): int
  {
    match kind
    case ZeroOrOne => 2
    case ZeroOrMore => MAX_REPEAT + 1
    case OneOrMore => MAX_REPEAT + 1
    case Range(Exactly(m)) => m + 1
    case Range(AtLeast(_)) => MAX_REPEAT
    case Range(Bounded(_, mx)) => mx + 1
  }

  /**
    The strings a repetition yields: exactly the joins of an allowed number of
    strings the repeated node yields.
   */
  lemma RepetitionOutputs(kind: RepetitionKind, inner: Hir, s: string)
    ensures Produces(Repetition(kind, inner), Ok(s))
        <==> exists parts :: CountAllowed(kind, |parts|) && EachProduced(inner, parts) && s == Flatten(parts)
  {
    var node := Repetition(kind, inner);
    if kind.Range? && kind.range.Exactly? {
      if Produces(node, Ok(s)) {
        RepeatOkSplits(node, kind.range.n, s);
      }
      if exists parts :: CountAllowed(kind, |parts|) && EachProduced(inner, parts) && s == Flatten(parts) {
        var parts :| CountAllowed(kind, |parts|) && EachProduced(inner, parts) && s == Flatten(parts);
        RepeatSucceeds(node, parts);
      }
    } else if kind.Range? && kind.range.Bounded? && kind.range.max == U32_MAX {
    } else {
      SampledRange(kind, inner, Ok(s));
      if Produces(node, Ok(s)) {
        var k: nat :| LowCount(kind) <= k < HighCount(kind) && ProducesRepeat(node, k, Ok(s));
        RepeatOkSplits(node, k, s);
      }
      if exists parts :: CountAllowed(kind, |parts|) && EachProduced(inner, parts) && s == Flatten(parts) {
        var parts :| CountAllowed(kind, |parts|) && EachProduced(inner, parts) && s == Flatten(parts);
        RepeatSucceeds(node, parts);
      }
    }
  }

  /** A repetition never ends in `Err`, whatever the repeated node does. */
  lemma RepetitionNeverErr(kind: RepetitionKind, inner: Hir)
    ensures !Produces(Repetition(kind, inner), Err)
  {
    var node := Repetition(kind, inner);
    if kind.Range? && kind.range.Exactly? {
      if Produces(node, Err) {
        RepeatFailureIsPanic(node, kind.range.n, Err);
      }
    } else if kind.Range? && kind.range.Bounded? && kind.range.max == U32_MAX {
    } else {
      SampledRange(kind, inner, Err);
      if Produces(node, Err) {
        var k: nat :| LowCount(kind) <= k < HighCount(kind) && ProducesRepeat(node, k, Err);
        RepeatFailureIsPanic(node, k, Err);
      }
    }
  }

  /** `x{n,}` with `n >= MAX_REPEAT`: `Uniform::from(n..100)` is an empty range and panics. */
  lemma AtLeastPastMaxPanics(n: U32, inner: Hir, r: GenResult)
    requires n >= MAX_REPEAT
    ensures Produces(Repetition(Range(AtLeast(n)), inner), r) <==> r == Panic
  {
  }

  /** `x{mn,4294967295}`: `mx + 1` overflows `u32`, a panic whatever the repeated node. */
  lemma BoundedAtU32MaxPanics(mn: U32, inner: Hir, r: GenResult)
    ensures Produces(Repetition(Range(Bounded(mn, U32_MAX)), inner), r) <==> r == Panic
  {
  }

  // ---- Classes ----

  /** The bytes `lo..hi` contribute exactly the ASCII characters among them. */
  lemma {:induction false} RangeCharsExact(lo: int, hi: int, c: char)
    requires 0 <= lo && hi <= U8_LIMIT
    ensures c in RangeChars(lo, hi) <==> lo <= c as int < hi && (c as int) < 0x80
    decreases hi - lo
  {
    if lo < hi {
      RangeCharsExact(lo, hi - 1, c);
    }
  }

  /** Some range's lead bytes enclose `c`. */
  ghost predicate BetweenLeadBytes(ranges: seq<(char, char)>, c: char)
  {
    exists k :: 0 <= k < |ranges| && Utf8.LeadByte(ranges[k].0) <= c as int <= Utf8.LeadByte(ranges[k].1)
  }

  /**
    The candidates of a Unicode class: the ASCII characters whose code lies
    between the lead bytes of some range's two ends. Nothing outside ASCII is
    ever a candidate.
   */
  lemma {:induction false} ClassCharsExact(ranges: seq<(char, char)>, c: char)
    ensures c in ClassChars(ranges) <==> (c as int) < 0x80 && BetweenLeadBytes(ranges, c)
  {
    if ranges != [] {
      var n := |ranges| - 1;
      var lo, hi := Utf8.LeadByte(ranges[n].0), Utf8.LeadByte(ranges[n].1) + 1;
      assert ClassChars(ranges) == ClassChars(ranges[..n]) + RangeChars(lo, hi);
      ClassCharsExact(ranges[..n], c);
      RangeCharsExact(lo, hi, c);
      BetweenLeadBytesSnoc(ranges, c);
    }
  }

  /** The lead bytes of a sequence of ranges enclose `c` iff those of its front or of its last range do. */
  lemma BetweenLeadBytesSnoc(ranges: seq<(char, char)>, c: char)
    requires ranges != []
    ensures var n := |ranges| - 1;
      BetweenLeadBytes(ranges, c) <==>
        BetweenLeadBytes(ranges[..n], c) || Utf8.LeadByte(ranges[n].0) <= c as int <= Utf8.LeadByte(ranges[n].1)
  {
    var n := |ranges| - 1;
    if BetweenLeadBytes(ranges, c) {
      var k :| 0 <= k < |ranges| && Utf8.LeadByte(ranges[k].0) <= c as int <= Utf8.LeadByte(ranges[k].1);
      if k < n {
        assert ranges[..n][k] == ranges[k];
      }
    }
    if BetweenLeadBytes(ranges[..n], c) {
      var k :| 0 <= k < n && Utf8.LeadByte(ranges[..n][k].0) <= c as int <= Utf8.LeadByte(ranges[..n][k].1);
      assert ranges[..n][k] == ranges[k];
    }
  }

  /** Some range encloses `c`. */
  ghost predicate InSomeRange(ranges: seq<(char, char)>, c: char)
  {
    exists k :: 0 <= k < |ranges| && ranges[k].0 <= c <= ranges[k].1
  }

  /** For a class whose ranges lie within ASCII, the candidates are exactly the class's members. */
  lemma AsciiClassExact(ranges: seq<(char, char)>, c: char)
    requires forall k :: 0 <= k < |ranges| ==> (ranges[k].0 as int) < 0x80 && (ranges[k].1 as int) < 0x80
    ensures c in ClassChars(ranges) <==> InSomeRange(ranges, c)
  {
    ClassCharsExact(ranges, c);
    if InSomeRange(ranges, c) {
      var k :| 0 <= k < |ranges| && ranges[k].0 <= c <= ranges[k].1;
      assert Utf8.LeadByte(ranges[k].0) <= c as int <= Utf8.LeadByte(ranges[k].1);
    }
    if BetweenLeadBytes(ranges, c) {
      var k :| 0 <= k < |ranges| && Utf8.LeadByte(ranges[k].0) <= c as int <= Utf8.LeadByte(ranges[k].1);
      assert ranges[k].0 <= c <= ranges[k].1;
    }
  }

  /** What a Unicode class yields: one ASCII candidate character, or a panic when there is none. */
  lemma ClassOutputs(ranges: seq<(char, char)>, r: GenResult)
    requires Produces(Class(UnicodeClass(ranges)), r)
    ensures r == Panic <==> forall c: char :: !((c as int) < 0x80 && BetweenLeadBytes(ranges, c))
    ensures r.Ok? ==> |r.value| == 1 && (r.value[0] as int) < 0x80 && BetweenLeadBytes(ranges, r.value[0])
    ensures !r.Err?
  {
    var cs := ClassChars(ranges);
    if |cs| == 0 {
      forall c: char ensures !((c as int) < 0x80 && BetweenLeadBytes(ranges, c)) {
        ClassCharsExact(ranges, c);
      }
    } else {
      ClassCharsExact(ranges, cs[0]);
      ClassCharsExact(ranges, r.value[0]);
    }
  }

  /** The bytes `lo..hi` with `lo` past ASCII contribute nothing. */
  lemma {:induction false} RangeCharsPastAscii(lo: int, hi: int)
    requires 0x80 <= lo && hi <= U8_LIMIT
    ensures RangeChars(lo, hi) == []
    decreases hi - lo
  {
    if lo < hi {
      RangeCharsPastAscii(lo, hi - 1);
    }
  }

  /** A class none of whose ranges starts in ASCII has no candidate: generating from it always panics. */
  lemma {:induction false} NonAsciiClassEmpty(ranges: seq<(char, char)>)
    requires forall k :: 0 <= k < |ranges| ==> (ranges[k].0 as int) >= 0x80
    ensures ClassChars(ranges) == []
  {
    if ranges != [] {
      var n := |ranges| - 1;
      NonAsciiClassEmpty(ranges[..n]);
      RangeCharsPastAscii(Utf8.LeadByte(ranges[n].0), Utf8.LeadByte(ranges[n].1) + 1);
    }
  }

  lemma NonAsciiClassPanics(ranges: seq<(char, char)>, r: GenResult)
    requires forall k :: 0 <= k < |ranges| ==> (ranges[k].0 as int) >= 0x80
    ensures Produces(Class(UnicodeClass(ranges)), r) <==> r == Panic
  {
    NonAsciiClassEmpty(ranges);
  }

  /** `[α-ω]`: the Greek lower-case letters are never generated. */
  lemma GreekClassPanics(r: GenResult)
    ensures Produces(Class(UnicodeClass([('α', 'ω')])), r) <==> r == Panic
  {
    NonAsciiClassPanics([('α', 'ω')], r);
  }

  /** `[z-é]`: the lead byte of 'é' is 0xC3, so the candidates are 'z' up to DEL (U+007F), and 'é' is not one. */
  lemma MixedRangeCandidates(c: char)
    ensures c in ClassChars([('z', 'é')]) <==> 'z' <= c <= '\U{7F}'
  {
    ClassCharsExact([('z', 'é')], c);
    assert Utf8.LeadByte('é') == 0xC3;
    if 'z' <= c <= '\U{7F}' {
      assert Utf8.LeadByte([('z', 'é')][0].0) <= c as int <= Utf8.LeadByte([('z', 'é')][0].1);
    }
  }

  // ---- Literals and alternation ----

  /** A Unicode literal yields itself and nothing else; a byte literal is an error. */
  lemma LiteralOutcomes(lit: HirLiteral, r: GenResult)
    ensures lit.UnicodeLit? ==> (Produces(Literal(lit), r) <==> r == Ok([lit.c]))
    ensures lit.ByteLit? ==> (Produces(Literal(lit), r) <==> r == Err)
  {
  }

  /** The concatenation of the literals of a string. */
  function LiteralString(s: string): (h: Hir)
    ensures h.Concat? && |h.exprs| == |s|
    ensures forall i :: 0 <= i < |s| ==> h.exprs[i] == Literal(UnicodeLit(s[i]))
  {
    Concat(seq(|s|, i requires 0 <= i < |s| => Literal(UnicodeLit(s[i]))))
  }

  /** The strings the literals of `s` yield are its letters, one each. */
  lemma LiteralParts(s: string, parts: seq<string>)
    ensures AllProduce(LiteralString(s).exprs, parts) <==> parts == Singletons(s)
  {
    var exprs := LiteralString(s).exprs;
    if AllProduce(exprs, parts) {
      forall i | 0 <= i < |s|
        ensures parts[i] == Singletons(s)[i]
      {
        LiteralOutcomes(UnicodeLit(s[i]), Ok(parts[i]));
      }
    }
  }

  /** A string of literals yields that string when it succeeds. */
  lemma LiteralStringOk(s: string, t: string)
    ensures Produces(LiteralString(s), Ok(t)) <==> t == s
  {
    ConcatOutputs(LiteralString(s).exprs, t);
    LiteralParts(s, Singletons(s));
    if Produces(LiteralString(s), Ok(t)) {
      var parts :| AllProduce(LiteralString(s).exprs, parts) && t == Flatten(parts);
      LiteralParts(s, parts);
    }
  }

  /** A pattern that is a plain string of literals regenerates exactly that string. */
  lemma LiteralStringOutput(s: string, r: GenResult)
    ensures Produces(LiteralString(s), r) <==> r == Ok(s)
  {
    if r.Ok? {
      LiteralStringOk(s, r.value);
    } else if Produces(LiteralString(s), r) {
      ConcatFailure(LiteralString(s).exprs, r);
    }
  }

  /** `a|b`, the expression of the source's parser test: one of the two letters. */
  lemma TwoLetterAlternation(a: char, b: char, r: GenResult)
    ensures Produces(Alternation([Literal(UnicodeLit(a)), Literal(UnicodeLit(b))]), r)
        <==> r == Ok([a]) || r == Ok([b])
  {
    var alts := [Literal(UnicodeLit(a)), Literal(UnicodeLit(b))];
    if r == Ok([a]) {
      assert alts[0] in alts && Produces(alts[0], r);
    }
    if r == Ok([b]) {
      assert alts[1] in alts && Produces(alts[1], r);
    }
  }

  // ---- The source's sampling test ----

  predicate IsAsciiLetter(c: char)
  {
    'A' <= c <= 'Z' || 'a' <= c <= 'z'
  }

  /** The HIR of `([a-zA-Z]){1,3}`: a bounded repetition of a group around a two-range class. */
  const LettersOneToThree: Hir :=
    Repetition(Range(Bounded(1, 3)), Group(Class(UnicodeClass([('A', 'Z'), ('a', 'z')]))))

  lemma LetterClass(c: char)
    ensures Produces(Group(Class(UnicodeClass([('A', 'Z'), ('a', 'z')]))), Ok([c])) <==> IsAsciiLetter(c)
  {
    var ranges := [('A', 'Z'), ('a', 'z')];
    AsciiClassExact(ranges, c);
    if IsAsciiLetter(c) {
      if c <= 'Z' {
        assert ranges[0].0 <= c <= ranges[0].1;
      } else {
        assert ranges[1].0 <= c <= ranges[1].1;
      }
    }
  }

  /** The letter class has candidates, so it never fails. */
  lemma LetterClassSucceeds(x: GenResult)
    ensures Produces(Group(Class(UnicodeClass([('A', 'Z'), ('a', 'z')]))), x) ==> x.Ok?
  {
    var ranges := [('A', 'Z'), ('a', 'z')];
    AsciiClassExact(ranges, 'A');
    assert ranges[0].0 <= 'A' <= ranges[0].1;
  }

  /** The letters of a string, one string each. */
  function Singletons(s: string): (parts: seq<string>)
    ensures |parts| == |s| && Flatten(parts) == s
    ensures forall i :: 0 <= i < |s| ==> parts[i] == [s[i]]
  {
    if s == [] then []
    else
      var n := |s| - 1;
      var parts := Singletons(s[..n]) + [[s[n]]];
      FlattenSnoc(Singletons(s[..n]), [s[n]]);
      assert s[..n] + [s[n]] == s;
      parts
  }

  /** Every outcome of `([a-zA-Z]){1,3}` is one to three ASCII letters. */
  lemma LettersOnly(r: GenResult)
    requires Produces(LettersOneToThree, r)
    ensures r.Ok? && 1 <= |r.value| <= 3 && forall i :: 0 <= i < |r.value| ==> IsAsciiLetter(r.value[i])
  {
    var kind := Range(Bounded(1, 3));
    var inner := Group(Class(UnicodeClass([('A', 'Z'), ('a', 'z')])));
    RepetitionNeverErr(kind, inner);
    if r.Ok? {
      RepetitionOutputs(kind, inner, r.value);
      var parts :| CountAllowed(kind, |parts|) && EachProduced(inner, parts) && r.value == Flatten(parts);
      forall i | 0 <= i < |parts|
        ensures |parts[i]| == 1 && IsAsciiLetter(parts[i][0])
      {
        LetterPart(parts[i]);
      }
      LetterStrings(parts);
    } else {
      var k: nat :| 1 <= k < 4 && ProducesRepeat(LettersOneToThree, k, r);
      RepeatFailureIsPanic(LettersOneToThree, k, r);
      var x :| Produces(inner, x) && !x.Ok?;
      LetterClassSucceeds(x);
    }
  }

  /** Every string of one to three ASCII letters is an outcome of `([a-zA-Z]){1,3}`. */
  lemma LettersAll(s: string)
    requires 1 <= |s| <= 3 && forall i :: 0 <= i < |s| ==> IsAsciiLetter(s[i])
    ensures Produces(LettersOneToThree, Ok(s))
  {
    var kind := Range(Bounded(1, 3));
    var inner := Group(Class(UnicodeClass([('A', 'Z'), ('a', 'z')])));
    var parts := Singletons(s);
    forall i | 0 <= i < |parts|
      ensures Produces(inner, Ok(parts[i]))
    {
      LetterClass(s[i]);
    }
    RepetitionOutputs(kind, inner, s);
  }

  /**
    `([a-zA-Z]){1,3}` always succeeds, with one to three ASCII letters, and every
    such string is a possible outcome.
   */
  lemma LettersOneToThreeOutputs(r: GenResult)
    ensures Produces(LettersOneToThree, r) <==> r.Ok? && 1 <= |r.value| <= 3 && forall i :: 0 <= i < |r.value| ==> IsAsciiLetter(r.value[i])
  {
    if Produces(LettersOneToThree, r) {
      LettersOnly(r);
    }
    if r.Ok? && 1 <= |r.value| <= 3 && forall i :: 0 <= i < |r.value| ==> IsAsciiLetter(r.value[i]) {
      LettersAll(r.value);
    }
  }

  /** A string the letter class yields is one letter. */
  lemma LetterPart(p: string)
    requires Produces(Group(Class(UnicodeClass([('A', 'Z'), ('a', 'z')]))), Ok(p))
    ensures |p| == 1 && IsAsciiLetter(p[0])
  {
    assert p == [p[0]];
    LetterClass(p[0]);
  }

  /** Joining strings that are each one letter gives that many letters. */
  lemma {:induction false} LetterStrings(parts: seq<string>)
    requires forall i :: 0 <= i < |parts| ==> |parts[i]| == 1 && IsAsciiLetter(parts[i][0])
    ensures |Flatten(parts)| == |parts|
    ensures forall i :: 0 <= i < |Flatten(parts)| ==> IsAsciiLetter(Flatten(parts)[i])
  {
    if parts != [] {
      var n := |parts| - 1;
      LetterStrings(parts[..n]);
      assert parts[n] == [parts[n][0]];
    }
  }
}
