/**
  src/generate/regex_gen.rs: turning a parsed regular expression (its HIR, the
  high-level intermediate representation of the `regex-syntax` crate) into one
  random string that the expression matches.

  The engine is a family of mutually recursive methods that draw from an `Rng`.
  Their common specification is the relation `Produces(h, r)`: every outcome `r`
  that some run of the engine on `h` can end in, whatever values a generator
  honouring the `Uniform` and `Shuffle` contracts supplies. Each method is proved
  to end in an outcome of that relation; the lemmas in regex_gen_props.dfy say
  what the relation allows.
 */
module RegexGen {
  import opened Common
  import Utf8
  import opened Rand

  /** The Rust `MAX_REPEAT`: the bound the open-ended repetitions draw below. */
  const MAX_REPEAT: int := 100

  datatype HirLiteral = UnicodeLit(c: char) | ByteLit(b: U8)

  /** A class: inclusive ranges of scalar values, or of bytes. */
  datatype HirClass = UnicodeClass(ranges: seq<(char, char)>) | ByteClass(byteRanges: seq<(U8, U8)>)

  datatype RepetitionRange = Exactly(n: U32) | AtLeast(n: U32) | Bounded(min: U32, max: U32)

  datatype RepetitionKind = ZeroOrOne | ZeroOrMore | OneOrMore | Range(range: RepetitionRange)

  /**
    The HIR node kinds. The payloads the engine ignores (the anchor and word
    boundary kinds, the group kind and capture index, greediness) are left out.
   */
  datatype Hir =
    | Empty
    | Literal(lit: HirLiteral)
    | Class(cls: HirClass)
    | Anchor
    | WordBoundary
    | Repetition(kind: RepetitionKind, inner: Hir)
    | Group(inner: Hir)
    | Concat(exprs: seq<Hir>)
    | Alternation(alts: seq<Hir>)

  /**
    The outcome of `randomize_for`: `Ok(s)`, `Err(())`, or a panic of the Rust
    code (an `unwrap` on `Err`, an empty `Uniform` range, an index into an empty
    vector, or `u32` overflow).
   */
  datatype GenResult = Ok(value: string) | Err | Panic

  // ---- The characters a Unicode class can yield ----

  /** The characters that the bytes `lo..hi` decode to, one byte at a time, in order. */
  function RangeChars(lo: int, hi: int): seq<char>
    requires 0 <= lo && hi <= U8_LIMIT
    decreases hi - lo
  {
    if hi <= lo then []
    else
      var tail := match Utf8.DecodeByte(hi - 1) case Some(c) => [c] case None => [];
      RangeChars(lo, hi - 1) + tail
  }

  /**
    The candidate characters `randomize_unicode_class` collects: for each range,
    every byte from the lead byte of the start's encoding to the lead byte of the
    end's encoding that decodes on its own.
   */
  function ClassChars(ranges: seq<(char, char)>): seq<char>
  {
    if ranges == [] then []
    else
      var last := ranges[|ranges| - 1];
      ClassChars(ranges[..|ranges| - 1]) + RangeChars(Utf8.LeadByte(last.0), Utf8.LeadByte(last.1) + 1)
  }

  // ---- The outcome relation ----

  /** The outcomes a run of `randomize_for` on `h` can end in. */
  ghost predicate Produces(h: Hir, r: GenResult)
    decreases h, 2
  {
    match h
    case Empty => r == Err
    case Literal(lit) => r == LiteralResult(lit)
    case Class(cls) =>
      (match cls
       case UnicodeClass(ranges) =>
         var cs := ClassChars(ranges);
         if |cs| == 0 then r == Panic else r.Ok? && |r.value| == 1 && r.value[0] in cs
       case ByteClass(_) => r == Err)
    case Anchor => r == Ok("")
    case WordBoundary => r == Ok(" ")
    case Group(inner) => Produces(inner, r)
    case Concat(exprs) => ProducesConcat(h, |exprs|, r)
    case Alternation(alts) =>
      if alts == [] then r == Err else exists x :: x in alts && Produces(x, r)
    case Repetition(kind, _) =>
      (match kind
       case ZeroOrOne => SampledRepeat(h, 0, 2, r)
       case ZeroOrMore => SampledRepeat(h, 0, MAX_REPEAT + 1, r)
       case OneOrMore => SampledRepeat(h, 1, MAX_REPEAT + 1, r)
       case Range(Exactly(n)) => ProducesRepeat(h, n, r)
       case Range(AtLeast(n)) => SampledRepeat(h, n, MAX_REPEAT, r)
       case Range(Bounded(mn, mx)) =>
         if mx == U32_MAX then r == Panic else SampledRepeat(h, mn, mx + 1, r))
  }

  /**
    A repetition count drawn from `lo..hi`, then that many repetitions; the
    distribution panics when the range is empty.
   */
  ghost predicate SampledRepeat(node: Hir, lo: nat, hi: int, r: GenResult)
    requires node.Repetition?
    decreases node, 1
  {
    if hi <= lo then r == Panic
    else exists k: nat :: lo <= k < hi && ProducesRepeat(node, k, r)
  }

  /** The outcomes of `h`, as a predicate. */
  ghost function Outcomes(h: Hir): GenResult -> bool
    decreases h, 3
  {
    x => Produces(h, x)
  }

  /**
    `k` repetitions of the repeated node, joined; the first repetition that does
    not yield `Ok` is `unwrap`ped, which panics and ends the run.
   */
  ghost predicate ProducesRepeat(node: Hir, k: nat, r: GenResult)
    requires node.Repetition?
    decreases node, 0, k
  {
    RepeatedBy(Outcomes(node.inner), k, r)
  }

  /** `k` repetitions of something whose outcomes are `each`, joined, the first failure panicking. */
  ghost predicate RepeatedBy(each: GenResult -> bool, k: nat, r: GenResult)
    decreases k
  {
    if k == 0 then r == Ok("")
    else
      exists prev :: RepeatedBy(each, k - 1, prev) &&
        if prev.Ok? then
          exists x :: each(x) && r == RepeatNext(prev.value, x)
        else r == prev
  }

  /** The text so far extended by one repetition; a failed repetition is `unwrap`ped and panics. */
  function RepeatNext(sofar: string, x: GenResult): GenResult
  {
    match x
    case Ok(t) => Ok(sofar + t)
    case _ => Panic
  }

  /** The text so far extended by one child of a concatenation; a failed child's outcome is passed on. */
  function ConcatNext(sofar: string, x: GenResult): GenResult
  {
    match x
    case Ok(t) => Ok(sofar + t)
    case _ => x
  }

  /**
    The first `k` children of a concatenation, left to right; the first child
    that does not yield `Ok` ends the run with that child's outcome (the `?`).
   */
  ghost predicate ProducesConcat(node: Hir, k: nat, r: GenResult)
    requires node.Concat? && k <= |node.exprs|
    decreases node, 0, k
  {
    if k == 0 then r == Ok("")
    else
      exists prev :: ProducesConcat(node, k - 1, prev) &&
        if prev.Ok? then
          exists x :: Produces(node.exprs[k - 1], x) && r == ConcatNext(prev.value, x)
        else r == prev
  }

  // ---- The engine ----

  /** `randomize_literal`: a Unicode literal is itself; a byte literal is an error. */
  function LiteralResult(lit: HirLiteral): (r: GenResult)
    ensures r.Ok? <==> lit.UnicodeLit?
    ensures r.Ok? ==> r.value == [lit.c]
    ensures !r.Ok? ==> r == Err
  {
    match lit
    case UnicodeLit(c) => Ok([c])
    case ByteLit(_) => Err
  }

  /** `randomize_for`: dispatch on the node kind; `Empty` is the catch-all error. */
  method RandomizeFor(rng: Rng, h: Hir) returns (r: GenResult)
    modifies rng
    ensures Produces(h, r)
    decreases h, 4
  {
    match h
    case Alternation(alts) => r := RandomizeAlternation(rng, h, alts);
    case Literal(lit) => r := LiteralResult(lit);
    case Concat(exprs) => r := RandomizeConcat(rng, h, exprs);
    case Repetition(_, _) => r := RandomizeRepetition(rng, h);
    case Group(inner) => r := RandomizeFor(rng, inner);
    case Class(cls) => r := RandomizeClass(rng, cls);
    case Anchor => r := Ok("");
    case WordBoundary => r := Ok(" ");
    case Empty => r := Err;
  }

  /** `randomize_alternation`: shuffle the branches, then generate from the first one. */
  method RandomizeAlternation(rng: Rng, ghost node: Hir, exprs: seq<Hir>) returns (r: GenResult)
    requires node == Alternation(exprs)
    modifies rng
    ensures Produces(node, r)
    decreases node, 2
  {
    var a := new Hir[|exprs|](k requires 0 <= k < |exprs| => exprs[k]);
    assert a[..] == exprs;
    rng.Shuffle(a);
    if a.Length == 0 {
      return Err;
    }
    var first := a[0];
    assert first in multiset(a[..]);
    assert first in exprs;
    r := RandomizeFor(rng, first);
  }

  /** `randomize_concat`: the children's strings in order; the first failure is returned as is. */
  method RandomizeConcat(rng: Rng, ghost node: Hir, exprs: seq<Hir>) returns (r: GenResult)
    requires node == Concat(exprs)
    modifies rng
    ensures Produces(node, r)
    decreases node, 2
  {
    var s := "";
    for i := 0 to |exprs|
      invariant ProducesConcat(node, i, Ok(s))
    {
      assert exprs[i] in exprs;
      var x := RandomizeFor(rng, exprs[i]);
      ConcatStep(node, i, s, x);
      if !x.Ok? {
        ConcatAbortPropagates(node, i + 1, |exprs|, x);
        return x;
      }
      s := s + x.value;
    }
    r := Ok(s);
  }

  /** One more child of a concatenation, after the ones before it succeeded. */
  lemma ConcatStep(node: Hir, i: nat, s: string, x: GenResult)
    requires node.Concat? && i < |node.exprs|
    requires ProducesConcat(node, i, Ok(s)) && Produces(node.exprs[i], x)
    ensures ProducesConcat(node, i + 1, ConcatNext(s, x))
  {
  }

  /** One more repetition, after the ones before it succeeded. */
  lemma RepeatStep(node: Hir, i: nat, s: string, x: GenResult)
    requires node.Repetition?
    requires ProducesRepeat(node, i, Ok(s)) && Produces(node.inner, x)
    ensures ProducesRepeat(node, i + 1, RepeatNext(s, x))
  {
  }

  /** Once a concatenation has failed, the rest of it keeps that outcome. */
  lemma {:induction false} ConcatAbortPropagates(node: Hir, i: nat, n: nat, x: GenResult)
    requires node.Concat? && i <= n <= |node.exprs|
    requires !x.Ok? && ProducesConcat(node, i, x)
    ensures ProducesConcat(node, n, x)
    decreases n - i
  {
    if i < n {
      assert ProducesConcat(node, i + 1, x);
      ConcatAbortPropagates(node, i + 1, n, x);
    }
  }

  /** Once a repetition has panicked, the remaining repetitions keep the panic. */
  lemma {:induction false} RepeatAbortPropagates(node: Hir, i: nat, n: nat)
    requires node.Repetition? && i <= n
    requires ProducesRepeat(node, i, Panic)
    ensures ProducesRepeat(node, n, Panic)
    decreases n - i
  {
    if i < n {
      assert ProducesRepeat(node, i + 1, Panic);
      RepeatAbortPropagates(node, i + 1, n);
    }
  }

  /** `repeat_exactly`: `n` repetitions of `h`, each `unwrap`ped, joined. */
  method RepeatExactly(rng: Rng, ghost node: Hir, h: Hir, n: U32) returns (r: GenResult)
    requires node.Repetition? && node.inner == h
    modifies rng
    ensures ProducesRepeat(node, n, r)
    decreases node, 0
  {
    var s := "";
    for i := 0 to n
      invariant ProducesRepeat(node, i, Ok(s))
    {
      assert h < node;
      var x := RandomizeFor(rng, h);
      RepeatStep(node, i, s, x);
      if !x.Ok? {
        // `unwrap` on `Err(())`
        RepeatAbortPropagates(node, i + 1, n);
        return Panic;
      }
      s := s + x.value;
    }
    r := Ok(s);
  }

  /**
    The draw shared by `repeat_at_least` and `repeat_bounded`: a count from
    `lo..hi`, then that many repetitions. `Uniform::from` panics on an empty range.
   */
  method RepeatSampled(rng: Rng, ghost node: Hir, h: Hir, lo: U32, hi: int) returns (r: GenResult)
    requires node.Repetition? && node.inner == h && hi <= U32_MAX + 1
    modifies rng
    ensures SampledRepeat(node, lo, hi, r)
    decreases node, 1
  {
    if hi <= lo {
      return Panic;
    }
    var k := rng.Uniform(lo, hi);
    r := RepeatExactly(rng, node, h, k);
  }

  /** `repeat_at_least`: a count drawn from `n..MAX_REPEAT`. */
  method RepeatAtLeast(rng: Rng, ghost node: Hir, h: Hir, n: U32) returns (r: GenResult)
    requires node.Repetition? && node.inner == h
    modifies rng
    ensures SampledRepeat(node, n, MAX_REPEAT, r)
    decreases node, 2
  {
    r := RepeatSampled(rng, node, h, n, MAX_REPEAT);
  }

  /**
    `repeat_bounded`: a count drawn from `mn..mx + 1`. The `u32` addition
    overflows for `mx == u32::MAX`: a panic in a debug build, and in a release
    build a wrap to 0, after which `Uniform::from(mn..0)` panics.
   */
  method RepeatBounded(rng: Rng, ghost node: Hir, h: Hir, mn: U32, mx: U32) returns (r: GenResult)
    requires node.Repetition? && node.inner == h
    modifies rng
    ensures mx == U32_MAX ==> r == Panic
    ensures mx < U32_MAX ==> SampledRepeat(node, mn, mx + 1, r)
    decreases node, 2
  {
    if mx == U32_MAX {
      return Panic;
    }
    r := RepeatSampled(rng, node, h, mn, mx + 1);
  }

  /** `randomize_repetition`: the repetition kinds mapped onto the three helpers. */
  method RandomizeRepetition(rng: Rng, node: Hir) returns (r: GenResult)
    requires node.Repetition?
    modifies rng
    ensures Produces(node, r)
    decreases node, 3
  {
    var h := node.inner;
    match node.kind
    case ZeroOrOne => r := RepeatBounded(rng, node, h, 0, 1);
    case ZeroOrMore => r := RepeatBounded(rng, node, h, 0, MAX_REPEAT);
    case OneOrMore => r := RepeatBounded(rng, node, h, 1, MAX_REPEAT);
    case Range(Exactly(n)) => r := RepeatExactly(rng, node, h, n);
    case Range(AtLeast(n)) => r := RepeatAtLeast(rng, node, h, n);
    case Range(Bounded(mn, mx)) => r := RepeatBounded(rng, node, h, mn, mx);
  }

  /**
    `randomize_unicode_class`: collect the candidate characters, shuffle them and
    take the first. With no candidate, `chars[0]` panics.
   */
  method RandomizeUnicodeClass(rng: Rng, ranges: seq<(char, char)>) returns (r: GenResult)
    modifies rng
    ensures Produces(Class(UnicodeClass(ranges)), r)
  {
    var chars := CollectCandidates(ranges);
    var a := new char[|chars|](i requires 0 <= i < |chars| => chars[i]);
    assert a[..] == chars;
    rng.Shuffle(a);
    if a.Length == 0 {
      // `chars[0]` on an empty vector
      return Panic;
    }
    assert a[0] in multiset(a[..]);
    r := Ok([a[0]]);
  }

  /**
    The collecting loops of `randomize_unicode_class`: for each range, every
    byte from the start's lead byte through the end's lead byte that decodes.
   */
  method CollectCandidates(ranges: seq<(char, char)>) returns (chars: seq<char>)
    ensures chars == ClassChars(ranges)
  {
    chars := [];
    for k := 0 to |ranges|
      invariant chars == ClassChars(ranges[..k])
    {
      var s: int := Utf8.Encode(ranges[k].0)[0];
      var e: int := Utf8.Encode(ranges[k].1)[0] + 1;
      ghost var before := chars;
      var byte: int := s;
      while byte < e
        invariant s <= byte && (byte <= e || byte == s)
        invariant chars == before + RangeChars(s, byte)
        decreases e - byte
      {
        var decoded := Utf8.Decode([byte]);
        Utf8.DecodeByteAgrees(byte);
        if decoded.Some? {
          chars := chars + [decoded.value];
        }
        byte := byte + 1;
      }
      assert ranges[..k + 1][..k] == ranges[..k];
    }
    assert ranges[..|ranges|] == ranges;
  }

  /** `randomize_class`: only Unicode classes generate; byte classes are an error. */
  method RandomizeClass(rng: Rng, cls: HirClass) returns (r: GenResult)
    modifies rng
    ensures Produces(Class(cls), r)
  {
    match cls
    case UnicodeClass(ranges) => r := RandomizeUnicodeClass(rng, ranges);
    case ByteClass(_) => r := Err;
  }

  /** `RegexGen`: a parsed expression ready to generate from. */
  datatype RegexGen = RegexGen(hir: Hir)
  {
    /** `RegexGen::kind`. */
    function Kind(): Hir
    {
      hir
    }

    /** `RegexGen::randomize`: one run of the engine on the whole expression. */
    method Randomize(rng: Rng) returns (r: GenResult)
      modifies rng
      ensures Produces(hir, r)
    {
      r := RandomizeFor(rng, Kind());
    }
  }

  /**
    `RegexGen::new`: parse the pattern, `None` when it does not parse. The
    `regex-syntax` parser is not part of this model and is a parameter.
   */
  function NewRegexGen(parse: string -> Option<Hir>, pattern: string): (g: Option<RegexGen>)
    ensures g.Some? <==> parse(pattern).Some?
    ensures g.Some? ==> g.value.hir == parse(pattern).value
  {
    match parse(pattern)
    case Some(hir) => Some(RegexGen(hir))
    case None => None
  }
}
