/**
  src/generate.rs: the single-level `assemble_pattern` that the batch driver
  uses, and `generate`, which parses the assembled pattern once and then runs
  the engine `number` times against one random-number generator, stopping at
  the first failure.
 */
module Generate {
  import opened Common
  import opened Rand
  import Pattern
  import RegexGen

  /**
    `Fragment` as src/config/fragment.rs declares it: its pattern is a plain
    string, which this assembler inserts as it is.
   */
  datatype FlatFragment = FlatFragment(name: string, pattern: string, description: string)

  /** The text a reference to `name` contributes: the first namesake's pattern, or "" when there is none. */
  function Lookup(frags: seq<FlatFragment>, name: string): string
  {
    match Pattern.FirstNamed(Pattern.Names(Lift(frags)), name)
    case Some(j) => frags[j].pattern
    case None => ""
  }

  /** The contribution of one part: verbatim text, a looked-up pattern, or a panic for "@". */
  function ExpandFlat(part: string, frags: seq<FlatFragment>): Pattern.Assembly
  {
    if !Pattern.IsReference(part) then Pattern.Ok(part)
    else match Pattern.ReferenceName(part)
      case None => Pattern.Panic
      case Some(name) => Pattern.Ok(Lookup(frags, name))
  }

  /** The parts assembled left to right: the reference semantics of this `assemble_pattern`. */
  function AssembleFlat(parts: seq<string>, frags: seq<FlatFragment>): Pattern.Assembly
  {
    if parts == [] then Pattern.Ok("")
    else
      var n := |parts| - 1;
      Pattern.Combine(AssembleFlat(parts[..n], frags), ExpandFlat(parts[n], frags))
  }

  /**
    `assemble_pattern` in src/generate.rs: appends each part to `pat`, a
    reference part replaced by the pattern of the first fragment of that name.
   */
  method AssemblePatternFlat(parts: seq<string>, frags: seq<FlatFragment>) returns (r: Pattern.Assembly)
    ensures r == AssembleFlat(parts, frags)
  {
    var pat := "";
    for i := 0 to |parts|
      invariant AssembleFlat(parts[..i], frags) == Pattern.Ok(pat)
    {
      var part := parts[i];
      assert parts[..i + 1][..i] == parts[..i];
      if Pattern.IsReference(part) {
        var stripped := part[..|part| - 1];
        if !(|stripped| > 0 && stripped[0] == '@') {
          // `strip_prefix("@")` found nothing: `unwrap` panics.
          FlatAbortPropagates(parts, i + 1, frags);
          return Pattern.Panic;
        }
        var s := FindPattern(frags, stripped[1..]);
        pat := pat + s;
      } else {
        pat := pat + part;
      }
    }
    assert parts[..|parts|] == parts;
    r := Pattern.Ok(pat);
  }

  /** The inner loop of `assemble_pattern`: the pattern of the first fragment named `name`, or "". */
  method FindPattern(frags: seq<FlatFragment>, name: string) returns (s: string)
    ensures s == Lookup(frags, name)
  {
    s := "";
    for j := 0 to |frags|
      invariant forall k :: 0 <= k < j ==> frags[k].name != name
    {
      if frags[j].name == name {
        assert Pattern.FirstNamed(Pattern.Names(Lift(frags)), name) == Some(j);
        s := frags[j].pattern;
        return;
      }
    }
  }

  /** Once a prefix of the parts has panicked, so has the whole assembly. */
  lemma {:induction false} FlatAbortPropagates(parts: seq<string>, i: nat, frags: seq<FlatFragment>)
    requires i <= |parts|
    requires !AssembleFlat(parts[..i], frags).Ok?
    ensures AssembleFlat(parts, frags) == AssembleFlat(parts[..i], frags)
    decreases |parts| - i
  {
    if i < |parts| {
      assert parts[..i + 1][..i] == parts[..i];
      FlatAbortPropagates(parts, i + 1, frags);
    } else {
      assert parts[..i] == parts;
    }
  }

  // ---- Properties of the single-level assembler ----

  /** This assembler never yields `Err`: it ends in `Ok` or in the panic of a lone "@". */
  lemma {:induction false} AssembleFlatNeverErr(parts: seq<string>, frags: seq<FlatFragment>)
    ensures !AssembleFlat(parts, frags).Err?
  {
    if parts != [] {
      AssembleFlatNeverErr(parts[..|parts| - 1], frags);
    }
  }

  /** Assembly distributes over concatenation of part lists. */
  lemma {:induction false} AssembleFlatAppend(p: seq<string>, q: seq<string>, frags: seq<FlatFragment>)
    ensures AssembleFlat(p + q, frags) == Pattern.Combine(AssembleFlat(p, frags), AssembleFlat(q, frags))
  {
    var a := AssembleFlat(p, frags);
    if q == [] {
      assert p + q == p;
      if a.Ok? {
        assert a.value + "" == a.value;
      }
    } else {
      var n := |q| - 1;
      AssembleFlatAppend(p, q[..n], frags);
      assert (p + q)[..|p| + n] == p + q[..n];
      assert (p + q)[|p| + n] == q[n];
      Pattern.CombineAssociative(a, AssembleFlat(q[..n], frags), ExpandFlat(q[n], frags));
    }
  }

  /** Parts that are not references are copied verbatim, in order. */
  lemma {:induction false} FlatVerbatimParts(parts: seq<string>, frags: seq<FlatFragment>)
    requires forall k :: 0 <= k < |parts| ==> !Pattern.IsReference(parts[k])
    ensures AssembleFlat(parts, frags) == Pattern.Ok(Flatten(parts))
  {
    if parts != [] {
      var n := |parts| - 1;
      assert forall k :: 0 <= k < n ==> parts[..n][k] == parts[k];
      FlatVerbatimParts(parts[..n], frags);
    }
  }

  /** The lone reference `@name@` assembles to the text its name looks up. */
  lemma FlatSingleReference(name: string, frags: seq<FlatFragment>)
    ensures AssembleFlat(["@" + name + "@"], frags) == Pattern.Ok(Lookup(frags, name))
  {
    var part := "@" + name + "@";
    assert Pattern.ReferenceName(part) == Some(name) by {
      assert part[..|part| - 1] == "@" + name;
      assert ("@" + name)[1..] == name;
    }
    var none: seq<string> := [];
    assert [part][..0] == none;
  }

  /** The first fragment carrying the name supplies the text; later namesakes are ignored. */
  lemma {:induction false} FlatFirstMatchWins(name: string, j: nat, frags: seq<FlatFragment>)
    requires j < |frags| && frags[j].name == name
    requires forall k :: 0 <= k < j ==> frags[k].name != name
    ensures AssembleFlat(["@" + name + "@"], frags) == Pattern.Ok(frags[j].pattern)
  {
    FlatSingleReference(name, frags);
    Pattern.FirstNamedAt(Pattern.Names(Lift(frags)), name, j);
  }

  /** A reference to a name no fragment carries contributes the empty string. */
  lemma FlatUnknownReferenceIsEmpty(name: string, frags: seq<FlatFragment>)
    requires forall k :: 0 <= k < |frags| ==> frags[k].name != name
    ensures AssembleFlat(["@" + name + "@"], frags) == Pattern.Ok("")
  {
    FlatSingleReference(name, frags);
  }

  /**
    A reference inside a fragment's pattern is not expanded: if the fragment
    named `name` holds the text `@inner@`, assembling `@name@` gives back
    `@inner@` itself, whatever `inner` names.
   */
  lemma NestedReferenceNotExpanded(name: string, inner: string, frags: seq<FlatFragment>)
    requires |frags| > 0 && frags[0] == FlatFragment(name, "@" + inner + "@", "")
    ensures AssembleFlat(["@" + name + "@"], frags) == Pattern.Ok("@" + inner + "@")
    ensures Pattern.IsReference("@" + inner + "@")
  {
    FlatFirstMatchWins(name, 0, frags);
  }

  /** The part "@" makes the whole assembly panic, wherever it appears. */
  lemma FlatLoneAtPanics(p: seq<string>, q: seq<string>, frags: seq<FlatFragment>)
    ensures AssembleFlat(p + ["@"] + q, frags) == Pattern.Panic
  {
    var parts := p + ["@"] + q;
    var i := |p|;
    assert parts[..i + 1][..i] == p;
    assert parts[..i + 1] == p + ["@"];
    AssembleFlatNeverErr(p, frags);
    FlatAbortPropagates(parts, i + 1, frags);
  }

  /**
    The flat fragments seen as composite ones: each pattern string becomes a
    single part, as `From<&str>` would build it.
   */
  function Lift(frags: seq<FlatFragment>): (lifted: seq<Pattern.Fragment>)
    ensures |lifted| == |frags|
    ensures forall k :: 0 <= k < |frags| ==>
      lifted[k] == Pattern.Fragment(frags[k].name, Pattern.FromStr(frags[k].pattern), frags[k].description)
  {
    seq(|frags|, k requires 0 <= k < |frags| =>
      Pattern.Fragment(frags[k].name, Pattern.FromStr(frags[k].pattern), frags[k].description))
  }

  /** Rank 0 for every fragment: none of them refers to another. */
  function ZeroRanks(frags: seq<FlatFragment>): (rank: seq<nat>)
    ensures |rank| == |frags| && forall k :: 0 <= k < |frags| ==> rank[k] == 0
  {
    seq(|frags|, k => 0)
  }

  /** Lifted fragments whose patterns are not references are acyclic at rank 0. */
  lemma LiftRanked(frags: seq<FlatFragment>)
    requires forall k :: 0 <= k < |frags| ==> !Pattern.IsReference(frags[k].pattern)
    ensures Pattern.Ranked(Lift(frags), ZeroRanks(frags), 1)
  {
    var lifted := Lift(frags);
    forall j | 0 <= j < |lifted|
      ensures Pattern.RefsBelow(lifted[j].pattern.parts, lifted, ZeroRanks(frags), 0)
    {
      assert lifted[j].pattern.parts == [frags[j].pattern];
    }
  }

  /** One part expands the same way under both assemblers when no fragment pattern is a reference. */
  lemma LiftedExpand(part: string, frags: seq<FlatFragment>)
    requires forall k :: 0 <= k < |frags| ==> !Pattern.IsReference(frags[k].pattern)
    ensures Pattern.Ranked(Lift(frags), ZeroRanks(frags), 1)
    ensures Pattern.RefsBelow([part], Lift(frags), ZeroRanks(frags), 1)
    ensures Pattern.Expand(part, Lift(frags), ZeroRanks(frags), 1) == ExpandFlat(part, frags)
  {
    var lifted := Lift(frags);
    LiftRanked(frags);
    if Pattern.IsReference(part) && Pattern.ReferenceName(part).Some? {
      var name := Pattern.ReferenceName(part).value;
      match Pattern.FirstNamed(Pattern.Names(Lift(frags)), name)
      case None =>
      case Some(j) =>
        Pattern.VerbatimParts([frags[j].pattern], lifted, ZeroRanks(frags), 0);
        assert Flatten([frags[j].pattern]) == frags[j].pattern;
    }
  }

  /**
    When no fragment pattern is itself a reference, this assembler agrees with
    the recursive one of src/pattern.rs run on the same fragments, each pattern
    taken as a single part.
   */
  lemma {:induction false} FlatAgreesWithRecursive(parts: seq<string>, frags: seq<FlatFragment>)
    requires forall k :: 0 <= k < |frags| ==> !Pattern.IsReference(frags[k].pattern)
    ensures Pattern.Ranked(Lift(frags), ZeroRanks(frags), 1)
    ensures Pattern.RefsBelow(parts, Lift(frags), ZeroRanks(frags), 1)
    ensures Pattern.AssembleParts(parts, Lift(frags), ZeroRanks(frags), 1) == AssembleFlat(parts, frags)
  {
    LiftRanked(frags);
    if parts == [] {
    } else {
      var n := |parts| - 1;
      FlatAgreesWithRecursive(parts[..n], frags);
      LiftedExpand(parts[n], frags);
      Pattern.RefsBelowAppend(parts[..n], [parts[n]], Lift(frags), ZeroRanks(frags), 1);
      assert parts[..n] + [parts[n]] == parts;
      Pattern.PrefixStep(parts, n, Lift(frags), ZeroRanks(frags), 1);
      assert parts[..n + 1] == parts;
    }
  }

  // ---- The batch driver ----

  const PARSE_FAILED: string := "Failed to parse pattern!"
  const GENERATE_FAILED: string := "Failed to generate string!"

  /** The outcome of `generate`: `Result<Vec<String>, String>`, or a panic. */
  datatype BatchResult = Ok(strings: seq<string>) | Err(message: string) | Panic

  /**
    What the batch loop returns after the given engine runs, in order: every
    string while all succeed; at the first `Err`, the generation error with
    everything gathered so far dropped; at the first panic, a panic.
   */
  function Collect(draws: seq<RegexGen.GenResult>): BatchResult
  {
    if draws == [] then Ok([])
    else
      var n := |draws| - 1;
      match Collect(draws[..n])
      case Ok(ss) =>
        (match draws[n]
         case Ok(s) => Ok(ss + [s])
         case Err => Err(GENERATE_FAILED)
         case Panic => Panic)
      case other => other
  }

  /** The values of runs that all succeeded. */
  function Values(draws: seq<RegexGen.GenResult>): (vs: seq<string>)
    requires forall k :: 0 <= k < |draws| ==> draws[k].Ok?
    ensures |vs| == |draws| && forall k :: 0 <= k < |draws| ==> draws[k] == RegexGen.Ok(vs[k])
  {
    seq(|draws|, k requires 0 <= k < |draws| => draws[k].value)
  }

  /** The batch succeeds exactly when every run does, and then holds every run's string, in order. */
  lemma {:induction false} CollectOk(draws: seq<RegexGen.GenResult>)
    ensures Collect(draws).Ok? <==> forall k :: 0 <= k < |draws| ==> draws[k].Ok?
    ensures Collect(draws).Ok? ==> Collect(draws).strings == Values(draws)
  {
    if draws != [] {
      var n := |draws| - 1;
      assert forall k :: 0 <= k < n ==> draws[..n][k] == draws[k];
      CollectOk(draws[..n]);
      if Collect(draws).Ok? {
        assert Values(draws) == Values(draws[..n]) + [draws[n].value];
      }
    }
  }

  /** Runs that all succeed followed by one that does not: the batch takes that failure and keeps none of the strings. */
  lemma CollectFirstFailure(draws: seq<RegexGen.GenResult>)
    requires |draws| > 0 && !draws[|draws| - 1].Ok?
    requires forall k :: 0 <= k < |draws| - 1 ==> draws[k].Ok?
    ensures draws[|draws| - 1].Err? ==> Collect(draws) == Err(GENERATE_FAILED)
    ensures draws[|draws| - 1].Panic? ==> Collect(draws) == Panic
  {
    var n := |draws| - 1;
    assert forall k :: 0 <= k < n ==> draws[..n][k] == draws[k];
    CollectOk(draws[..n]);
  }

  /**
    The engine runs of one batch on `hir` and what the batch returns: every run
    is an outcome of the engine, all but the last succeeded, the runs stop at
    `number` or at the first failure, and the result is what the loop collects.
   */
  ghost predicate BatchOf(hir: RegexGen.Hir, number: nat, draws: seq<RegexGen.GenResult>, r: BatchResult)
  {
    && |draws| <= number
    && (forall k :: 0 <= k < |draws| ==> RegexGen.Outcomes(hir)(draws[k]))
    && (forall k :: 0 <= k < |draws| - 1 ==> draws[k].Ok?)
    && (|draws| == number || (|draws| > 0 && !draws[|draws| - 1].Ok?))
    && r == Collect(draws)
  }

  /**
    `generate`: assemble the configured pattern with the single-level assembler,
    parse it once, then run the batch. The parser is a parameter, as in
    `RegexGen.NewRegexGen`; `rng` stands for the entropy-seeded `Pcg64`, and no
    seed is read. `draws` records the engine runs in order.
   */
  method Generate(pattern: Pattern.CompositePattern, frags: seq<FlatFragment>, number: U32,
                  parse: string -> Option<RegexGen.Hir>, rng: Rng)
    returns (r: BatchResult, ghost draws: seq<RegexGen.GenResult>)
    modifies rng
    ensures AssembleFlat(pattern.parts, frags).Panic? ==> r == Panic && draws == []
    ensures AssembleFlat(pattern.parts, frags).Ok? && parse(AssembleFlat(pattern.parts, frags).value).None? ==>
      r == Err(PARSE_FAILED) && draws == []
    ensures AssembleFlat(pattern.parts, frags).Ok? && parse(AssembleFlat(pattern.parts, frags).value).Some? ==>
      BatchOf(parse(AssembleFlat(pattern.parts, frags).value).value, number, draws, r)
  {
    var a := AssemblePatternFlat(pattern.parts, frags);
    AssembleFlatNeverErr(pattern.parts, frags);
    if a.Panic? {
      return Panic, [];
    }
    var gen := RegexGen.NewRegexGen(parse, a.value);
    if gen.None? {
      return Err(PARSE_FAILED), [];
    }
    r, draws := RunBatch(gen.value, number, rng);
  }

  /** The loop of `generate`: `number` runs of the engine, pushing each string, returning at the first failure. */
  method RunBatch(g: RegexGen.RegexGen, number: U32, rng: Rng)
    returns (r: BatchResult, ghost draws: seq<RegexGen.GenResult>)
    modifies rng
    ensures BatchOf(g.hir, number, draws, r)
  {
    draws := [];
    var strings: seq<string> := [];
    for i := 0 to number
      invariant |draws| == i
      invariant forall k :: 0 <= k < i ==> RegexGen.Outcomes(g.hir)(draws[k])
      invariant forall k :: 0 <= k < i ==> draws[k].Ok?
      invariant Collect(draws) == Ok(strings)
    {
      var x := g.Randomize(rng);
      assert RegexGen.Outcomes(g.hir)(x);
      draws := draws + [x];
      assert draws[..i] == draws[..|draws| - 1];
      match x
      case Ok(s) =>
        strings := strings + [s];
      case Err =>
        return Err(GENERATE_FAILED), draws;
      case Panic =>
        return Panic, draws;
    }
    r := Ok(strings);
  }

  /**
    A successful batch holds exactly `number` strings, each one an outcome the
    engine can produce from the parsed pattern.
   */
  lemma BatchOk(hir: RegexGen.Hir, number: nat, draws: seq<RegexGen.GenResult>, r: BatchResult)
    requires BatchOf(hir, number, draws, r) && r.Ok?
    ensures |r.strings| == number
    ensures forall k :: 0 <= k < number ==> RegexGen.Produces(hir, RegexGen.Ok(r.strings[k]))
  {
    CollectOk(draws);
    var vs := Values(draws);
    forall k | 0 <= k < number
      ensures RegexGen.Produces(hir, RegexGen.Ok(vs[k]))
    {
      assert RegexGen.Outcomes(hir)(draws[k]);
    }
  }

  /**
    A failed batch failed on its last run, and returns that run's failure:
    the generation error for an `Err`, a panic for a panic, no strings either way.
   */
  lemma BatchFails(hir: RegexGen.Hir, number: nat, draws: seq<RegexGen.GenResult>, r: BatchResult)
    requires BatchOf(hir, number, draws, r) && !r.Ok?
    ensures |draws| > 0 && !draws[|draws| - 1].Ok?
    ensures r == if draws[|draws| - 1].Err? then Err(GENERATE_FAILED) else Panic
  {
    CollectOk(draws);
    var k :| 0 <= k < |draws| && !draws[k].Ok?;
    CollectFirstFailure(draws);
  }
}
