# string_studio in Dafny

string_studio generates random strings from regular expressions. A configured
*composite pattern* is a list of parts. A part written `@name@` refers to a named
*fragment* of a catalog. The parts are assembled into one regular expression,
which is parsed once and then run `number` times through a generator. Each run
walks the expression tree and draws its choices from one shared random-number
generator. The generated strings can then be rewritten by text transforms. This
project models that pipeline and proves what each step produces.

The project has one module per source file:

- **`RegexGen`** (`regex_gen.dfy`): the engine of `src/generate/regex_gen.rs`.
  - The expression tree is a datatype `Hir`, and a run ends in `Ok(s)`, `Err`
    (the Rust `Err(())`) or `Panic`, which stands for an `unwrap` on an error, an
    empty `Uniform` range or an index into an empty vector.
  - The functions that draw from the generator are methods on it
    (`modifies rng`): alternation, concatenation, the three `repeat_*` helpers,
    repetition and the class samplers. `randomize_literal` draws nothing and is
    the function `LiteralResult`. `randomize_anchor`, `randomize_word_boundry` and
    `randomize_group` are single cases of `RandomizeFor`. Each method is proved to
    end in an outcome allowed by the relation `Produces(h, r)`: the outcomes that
    any generator keeping the range and permutation contracts can lead to.
  - `regex_gen_props.dfy` (`RegexGenProps`) proves properties of that relation:
    - a concatenation's output is its children's outputs in order, and it fails
      with the failure of some child;
    - the repetition counts each repetition kind allows, including the `MAX_REPEAT`
      cap and the `u32` overflow of `Bounded(_, u32::MAX)`;
    - an inner failure in a repetition is a panic, not an `Err`;
    - the exact candidate set of a character class;
    - the outputs of a few concrete expressions, among them the `([a-zA-Z]){1,3}`
      of the source's own test.
- **`Utf8`** (`utf8.dfy`): UTF-8 encoding and strict decoding (RFC 3629,
  section 3). This is what the class sampler relies on. Both round trips are
  proved.
- **`Rand`** (`rand.dfy`): the random-number generator as a class. It has a
  uniform draw from a half-open range and an in-place shuffle that keeps the
  multiset of the array.
- **`Pattern`** (`pattern.dfy`): `CompositePattern::assemble_pattern` of
  `src/pattern.rs`, its constructors, and its serialised shape.
  - The source has no cycle guard, so the recursive assembler is given a ghost
    rank and a level. The fragments ranked below the level refer only to
    fragments of lower rank. Fragments the assembly never reaches may sit at or
    above the level, so a catalog may hold a cycle that the pattern never
    reaches. A loop method is proved equal to a recursive specification.
  - Also proved: assembly distributes over concatenation; the first namesake
    wins; an unknown name gives ""; a lone `@` panics; assembly never returns `Err`.
  - Serialisation followed by the pattern's own deserialising visitor gives the
    pattern back when it has at least one part and every part reads back as a
    plain string.
- **`Generate`** (`generate.dfy`): the older single-level `assemble_pattern` of
  `src/generate.rs` and the batch driver `generate`.
  - The single-level assembler inserts a fragment's pattern string unexpanded.
    It is proved to agree with the recursive one whenever no fragment pattern is
    itself a reference.
  - The driver parses once, then collects exactly `number` strings. Each one is
    an outcome of the engine. The first failed run makes the whole batch fail and
    drops every string gathered so far.
- **`Xform`** (`xform.dfy`): the transforms of `src/xform.rs`.
  - u-after-q: its unit tests; the result always has a u after each q; it is
    idempotent; it inserts exactly one character per bare q.
  - Title case over ASCII words, and ASCII case mapping. Other characters pass
    through unchanged, so the length statements hold for ASCII text only.
  - The dispatch, and the parser for transform names.
- **`Config`** (`config.dfy`), **`Verbose`** (`verbose.dfy`),
  **`OutputFormat`** (`output_format.dfy`):
  - the configuration defaults;
  - the built-in fragment catalog: eight distinct names, acyclic, and the
    assembled "syllable" pattern;
  - the verbosity gate on messages;
  - the conversions of verbosity and output format from their inputs, and their
    display names.
- **`Common`** (`common.dfy`): `Option`, the machine-integer ranges, and string
  joining.

The model follows the code where the code differs from the project's stated
intent:

- A Unicode class does not draw from all the scalar values it covers. Each
  range contributes only the bytes between the UTF-8 lead bytes of its ends that
  decode on their own, that is, ASCII characters. A class with no ASCII
  candidate panics on `chars[0]`.
- `generate` seeds its generator from entropy and never reads the configured
  seed, so no same-seed, same-output property holds.
- A reference to an unknown fragment name silently contributes "".

## Model

| member | source | states |
|---|---|---|
| Utf8.LeadByte | src/generate/regex_gen.rs:115-119 | The first byte of a character's UTF-8 encoding is below 0x80 exactly for ASCII characters, and then equals the code; it is always below 0xF5 |
| Utf8.Encode | src/generate/regex_gen.rs:115-116 | The strict UTF-8 encoding: 1 to 4 bytes, the length fixed by the code point's range, lead byte in that length's range, continuation bytes after it |
| Utf8.DecodeEncode | src/generate/regex_gen.rs:115-123 | Strict decoding of a character's encoding gives the character back |
| Utf8.EncodeDecode | src/generate/regex_gen.rs:123 | Every byte sequence that strict decoding accepts is exactly the encoding of the decoded character |
| Utf8.DecodeByte | src/generate/regex_gen.rs:123-124 | Decoding a single byte on its own succeeds exactly for bytes below 0x80, giving the character with that code |
| Utf8.DecodeByteAgrees | src/generate/regex_gen.rs:123 | The one-byte decoder agrees with the general strict decoder on one-byte input |
| Utf8.LeadByteMonotone | src/generate/regex_gen.rs:119-122 | A larger code point never has a smaller lead byte, so the byte range between the ends of a range is ordered |
| Rand.Rng.Uniform | src/generate/regex_gen.rs:80-81 | A draw from `lo..hi` lies in the half-open range |
| Rand.Rng.Shuffle | src/generate/regex_gen.rs:20 | The shuffled array holds the same multiset of elements |
| RegexGen.RandomizeFor | src/generate/regex_gen.rs:170-182 | Dispatch on the node kind; the outcome is one the node can produce (`Empty` and other kinds give `Err`) |
| RegexGen.RandomizeAlternation | src/generate/regex_gen.rs:16-26 | An empty alternation gives `Err`; otherwise the outcome is an outcome of one of the alternatives (the head of a permutation) |
| RegexGen.RandomizeConcat | src/generate/regex_gen.rs:59-65 | The children run left to right, outputs appended; the first failing child's failure is returned |
| RegexGen.ConcatAbortPropagates | src/generate/regex_gen.rs:62 | Once a prefix of the children has failed, the whole concatenation has that failure |
| RegexGen.RepeatExactly | src/generate/regex_gen.rs:67-73 | Exactly `n` inner runs joined; a failed inner run panics through `unwrap` |
| RegexGen.RepeatAbortPropagates | src/generate/regex_gen.rs:68-69 | A panic after some repetitions stays a panic for any larger count |
| RegexGen.RepeatAtLeast | src/generate/regex_gen.rs:75-87 | The count is drawn from `n..MAX_REPEAT`, then that many inner runs; an empty range panics |
| RegexGen.RepeatBounded | src/generate/regex_gen.rs:89-103 | The count is drawn from `mn..mx+1`; at `mx = u32::MAX` the increment overflows and the run panics |
| RegexGen.RandomizeRepetition | src/generate/regex_gen.rs:146-168 | ZeroOrOne, ZeroOrMore and OneOrMore are bounded repetitions 0..1, 0..100 and 1..100; Range kinds go to their helpers |
| RegexGen.CollectCandidates | src/generate/regex_gen.rs:109-130 | The nested loops collect exactly the class's candidate characters, range by range, in byte order |
| RegexGen.RandomizeUnicodeClass | src/generate/regex_gen.rs:105-134 | No candidate: panic on `chars[0]`; otherwise a one-character string whose character is a candidate |
| RegexGen.RandomizeClass | src/generate/regex_gen.rs:136-144 | A Unicode class is sampled; a byte class gives `Err` |
| RegexGen.RegexGen.Randomize | src/generate/regex_gen.rs:199-202 | One run on the parsed expression ends in an outcome it can produce |
| RegexGen.NewRegexGen | src/generate/regex_gen.rs:189-195 | A generator exists exactly when the pattern parses, and then holds the parsed expression |
| RegexGenProps.ConcatOutputs | src/generate/regex_gen.rs:59-65 | A concatenation can output `s` if and only if `s` is the join of one output of each child, in order |
| RegexGenProps.ConcatFailure | src/generate/regex_gen.rs:61-62 | A failed concatenation fails with an outcome of one of its children (no partial string) |
| RegexGenProps.ConcatSucceeds | src/generate/regex_gen.rs:60-64 | Outputs of the first `k` children, in turn, join into an output of the first `k` steps |
| RegexGenProps.ConcatParts | src/generate/regex_gen.rs:60-64 | An output of the first `k` steps splits into one output per child |
| RegexGenProps.RepeatSucceeds | src/generate/regex_gen.rs:68-72 | Any list of inner outputs, joined, is an output of that many repetitions |
| RegexGenProps.RepeatOkSplits | src/generate/regex_gen.rs:68-72 | An output of `k` repetitions is the join of exactly `k` inner outputs |
| RegexGenProps.RepeatFailureIsPanic | src/generate/regex_gen.rs:69 | A repetition that does not succeed panics, and some inner run failed |
| RegexGenProps.SampledRange | src/generate/regex_gen.rs:146-168 | Each sampled repetition kind draws its count from its half-open range: ZeroOrOne [0,2), ZeroOrMore [0,101), OneOrMore [1,101), AtLeast(n) [n,100), Bounded(mn,mx) [mn,mx+1) |
| RegexGenProps.RepetitionOutputs | src/generate/regex_gen.rs:146-168 | A repetition can output `s` if and only if `s` joins a number of inner outputs that the kind allows |
| RegexGenProps.RepetitionNeverErr | src/generate/regex_gen.rs:69 | No repetition returns `Err`: inner failures become panics |
| RegexGenProps.AtLeastPastMaxPanics | src/generate/regex_gen.rs:80-81 | `AtLeast(n)` with `n >= 100` always panics, on the empty range |
| RegexGenProps.BoundedAtU32MaxPanics | src/generate/regex_gen.rs:95 | `Bounded(mn, u32::MAX)` always panics |
| RegexGenProps.RangeCharsExact | src/generate/regex_gen.rs:122-126 | The bytes `lo..hi` contribute exactly the ASCII characters in that interval |
| RegexGenProps.ClassCharsExact | src/generate/regex_gen.rs:111-130 | A character is a candidate if and only if it is ASCII and lies between the lead bytes of some range's ends |
| RegexGenProps.AsciiClassExact | src/generate/regex_gen.rs:111-130 | For ranges whose ends are ASCII, the candidates are exactly the members of the class |
| RegexGenProps.ClassOutputs | src/generate/regex_gen.rs:105-134 | A class panics exactly when it has no candidate; otherwise it outputs one candidate character; it never returns `Err` |
| RegexGenProps.NonAsciiClassEmpty | src/generate/regex_gen.rs:118-126 | Ranges that all start past ASCII contribute no candidate |
| RegexGenProps.NonAsciiClassPanics | src/generate/regex_gen.rs:133 | Such a class always panics |
| RegexGenProps.GreekClassPanics | src/generate/regex_gen.rs:133 | The class `[α-ω]` always panics |
| RegexGenProps.MixedRangeCandidates | src/generate/regex_gen.rs:119-126 | The range `z..é` yields exactly the characters from `z` to 0x7F |
| RegexGen.LiteralResult | src/generate/regex_gen.rs:49-57 | `randomize_literal`: a Unicode literal gives exactly its one character; a byte literal gives `Err` |
| RegexGenProps.LiteralOutcomes | src/generate/regex_gen.rs:49-57 | A Unicode literal outputs exactly its one character; a byte literal gives `Err` |
| RegexGenProps.LiteralStringOutput | src/generate/regex_gen.rs:53-65 | A concatenation of the literals of `s` has exactly one outcome, `Ok(s)` |
| RegexGenProps.TwoLetterAlternation | src/generate/regex_gen.rs:218-226 | `a\|b` outputs exactly "a" or "b" |
| RegexGenProps.LetterClass | src/generate/regex_gen.rs:212 | The group `([a-zA-Z])` outputs the one-letter string `c` exactly for ASCII letters `c` |
| RegexGenProps.LetterClassSucceeds | src/generate/regex_gen.rs:212 | That group never fails |
| RegexGenProps.LettersOneToThreeOutputs | src/generate/regex_gen.rs:209-216 | `([a-zA-Z]){1,3}` outputs exactly the strings of 1 to 3 ASCII letters, and never fails |
| Pattern.ReferenceName | src/pattern.rs:18-19 | The name between the two '@'s; none for the one-character part "@" |
| Pattern.FirstNamed | src/pattern.rs:22-27 | The index of the first fragment with the name, or none when no fragment has it |
| Pattern.FirstNamedAt | src/pattern.rs:21-27 | When index `j` is the first fragment with the name, the search returns exactly `j` |
| Pattern.AssemblePattern | src/pattern.rs:15-36 | The loop equals the recursive assembly: verbatim parts, references replaced by the first namesake's assembled pattern, failures propagated. It requires only that the fragments the parts reach are acyclic |
| Pattern.ReferencedPattern | src/pattern.rs:20-30 | The inner search assembles the first fragment of that name and stops; "" when there is none |
| Pattern.AbortPropagates | src/pattern.rs:19-24 | Once a prefix of the parts has failed, the whole assembly has that failure |
| Pattern.AssemblePartsNeverErr | src/pattern.rs:15-36 | Assembly never returns `Err`: it ends in `Ok` or a panic |
| Pattern.AssembleAppend | src/pattern.rs:16-35 | Assembling `p ++ q` is assembling `p`, then `q`, joined |
| Pattern.VerbatimParts | src/pattern.rs:31-33 | Parts that are not references are joined unchanged |
| Pattern.AssembleEach | src/pattern.rs:16-35 | The assembly is the in-order join of each part's expansion |
| Pattern.FirstMatchWins | src/pattern.rs:22-27 | `@name@` assembles the first fragment with that name; later namesakes are ignored |
| Pattern.SingleReference | src/pattern.rs:16-35 | The one-part pattern `@name@` assembles exactly as its name expands |
| Pattern.UnknownReferenceIsEmpty | src/pattern.rs:21-29 | A reference to a name no fragment has contributes "", whatever the catalog holds |
| Pattern.LoneAtPanics | src/pattern.rs:18-19 | A part "@" anywhere makes the assembly panic |
| Pattern.UnreachedCycleIgnored | src/pattern.rs:15-36 | A catalog whose fragment "a" refers to itself still assembles `["x", "@b@"]` to "xy", since only the reached fragment "b" is ranked |
| Pattern.Serialize | src/pattern.rs:39-56 | No parts serialise to none, one part to that part as a bare string, two or more to the sequence of the parts, in order |
| Pattern.LeadingStrings | src/pattern.rs:81-88 | The strings collected are the leading string elements, stopping at the first element that is not one |
| Pattern.VisitSeq | src/pattern.rs:77-90 | The visitor's loop collects exactly those leading strings |
| Pattern.RoundTrip | src/pattern.rs:39-96 | The visitor, fed a serialised pattern whose parts are plain strings, gives it back when it has a part; the empty pattern does not come back |
| Pattern.DeserializeStopsAtNonString | src/pattern.rs:82-89 | The visitor stops at the first non-string element and keeps the strings before it, in order; what the JSON reader does with the elements after it is not modelled |
| Pattern.Deserialize | src/pattern.rs:58-96 | The visitor: a bare string gives a one-part pattern; a sequence gives a pattern of its leading plain-string elements, in order; anything else gives no pattern (properties in `RoundTrip` and `DeserializeStopsAtNonString`) |
| Generate.AssemblePatternFlat | src/generate.rs:10-30 | The loop equals the single-level assembly: verbatim parts, references replaced by the first namesake's pattern string |
| Generate.FindPattern | src/generate.rs:16-24 | The inner search returns the first fragment's pattern for that name, or "" |
| Generate.FlatAbortPropagates | src/generate.rs:14 | A panic on a prefix of the parts is the whole assembly's outcome |
| Generate.AssembleFlatNeverErr | src/generate.rs:10-30 | The single-level assembly never returns `Err` |
| Generate.AssembleFlatAppend | src/generate.rs:12-27 | Assembling `p ++ q` is assembling `p`, then `q`, joined |
| Generate.FlatVerbatimParts | src/generate.rs:25-27 | Parts that are not references are joined unchanged |
| Generate.FlatSingleReference | src/generate.rs:13-24 | `@name@` contributes the text its name looks up |
| Generate.FlatFirstMatchWins | src/generate.rs:17-22 | The first fragment with the name supplies its pattern |
| Generate.FlatUnknownReferenceIsEmpty | src/generate.rs:21-24 | An unknown name contributes "" |
| Generate.NestedReferenceNotExpanded | src/generate.rs:19 | A fragment whose pattern is `@inner@` contributes that text unexpanded |
| Generate.FlatLoneAtPanics | src/generate.rs:14 | A part "@" anywhere makes the assembly panic |
| Generate.FlatAgreesWithRecursive | src/generate.rs:10-30 | When no fragment pattern is itself a reference, the single-level assembly equals the recursive one |
| Generate.CollectOk | src/generate.rs:38-44 | The batch succeeds if and only if every run does, and then holds every run's string, in order |
| Generate.CollectFirstFailure | src/generate.rs:39-42 | Successes then an `Err` give the generation error; then a panic give a panic; no strings are kept |
| Generate.Generate | src/generate.rs:32-48 | Assembly panic: panic; parse failure: "Failed to parse pattern!" with no runs; otherwise the batch below |
| Generate.RunBatch | src/generate.rs:36-44 | At most `number` runs, each an engine outcome; all but the last succeeded; it stops at `number` or the first failure |
| Generate.BatchOk | src/generate.rs:36-44 | A successful batch holds exactly `number` strings, each an output of the parsed expression |
| Generate.BatchFails | src/generate.rs:39-42 | A failed batch failed on its last run, with "Failed to generate string!" for `Err` and a panic for a panic |
| Xform.UAfterQString | src/xform.rs:14-29 | `xform_uafterq`: never shortens the text and keeps its first character; properties in `UAfterQEstablishes`, `Idempotent`, `UAfterQLength` and the unit-test lemmas |
| Xform.URun | src/xform.rs:16 | The length of the longest run of u/U at the front |
| Xform.UAfterQInserts | src/xform.rs:93-94 | "qit" becomes "quit" and "Qit" becomes "Quit" |
| Xform.UAfterQKeeps | src/xform.rs:95-97 | "quit", "Quit" and "foo" are unchanged |
| Xform.NoQUnchanged | src/xform.rs:19-28 | A string without q/Q is unchanged |
| Xform.FixedPoint | src/xform.rs:19-26 | A string where every q/Q is followed by u/U is unchanged |
| Xform.UAfterQEstablishes | src/xform.rs:14-28 | After the rewrite every q/Q is followed by u/U |
| Xform.Idempotent | src/xform.rs:14-28 | Applying u-after-q twice equals applying it once |
| Xform.UAfterQLength | src/xform.rs:19-28 | The output is longer by exactly the number of q/Q not followed by u/U |
| Xform.TitleCaseString | src/xform.rs:39-59 | `xform_titlecase`: on ASCII text, keeps the length; properties in `TitleCasePointwise` and `TitleCaseIdempotent` |
| Xform.TitleCasePointwise | src/xform.rs:39-59 | Same length; a character is uppercased exactly when it starts a word run, the rest is unchanged |
| Xform.TitleCaseIdempotent | src/xform.rs:39-59 | Title-casing twice equals title-casing once |
| Xform.LowerCaseString | src/xform.rs:31-33 | `xform_lowercase`: on ASCII text, keeps the length and leaves no uppercase ASCII letter |
| Xform.UpperCaseString | src/xform.rs:35-37 | `xform_uppercase`: on ASCII text, keeps the length and leaves no lowercase ASCII letter |
| Xform.CaseMappings | src/xform.rs:31-37 | Lower and upper case keep the length, leave no ASCII letter of the other case, and are idempotent |
| Xform.Apply | src/xform.rs:61-68 | `Xform::xform`: on ASCII text, never shortens the text, and only u-after-q can lengthen it |
| Xform.ApplyIdempotent | src/xform.rs:61-68 | Every transform is idempotent: applying it to its own output changes nothing |
| Xform.DispatchDistinguishesVariants | src/xform.rs:61-68 | On the one input "qa" the four variants give four different results, so no two variants run the same rewrite |
| Xform.Trim | src/xform.rs:75 | The trimmed string is empty or neither starts nor ends with whitespace |
| Xform.TrimIsInfix | src/xform.rs:75 | Trimming removes only leading and trailing whitespace |
| Xform.TryFrom | src/xform.rs:71-84 | The parse succeeds exactly when the trimmed text is a transform's name, and gives that transform; otherwise it fails with "Invalid transform type!" |
| Xform.TryFromIgnoresSurroundingWhitespace | src/xform.rs:74-76 | Surrounding whitespace does not change the parse |
| Xform.TryFromNameRoundTrip | src/xform.rs:76-80 | Each variant's name, padded or not, parses to that variant |
| Xform.TryFromErrors | src/xform.rs:76-81 | The parse fails exactly for trimmed names other than the four, with "Invalid transform type!" |
| Verbose.FromU8 | src/config/verbose.rs:12-20 | 0 is NotVerbose, 1 is Verbose, every n >= 2 is VeryVerbose |
| Verbose.OrderIsTotal | src/config/verbose.rs:4-10 | The derived ordering is total with NotVerbose < Verbose < VeryVerbose |
| Verbose.FromU8Monotone | src/config/verbose.rs:12-20 | A larger count never gives a lower level |
| Verbose.Display | src/config/verbose.rs:22-30 | Each level displays as a non-empty, capitalised name |
| Verbose.DisplayInjective | src/config/verbose.rs:22-30 | Each level displays as its own name |
| OutputFormat.FromStr | src/config/output_format.rs:11-19 | "table", "json" and "csv" give their formats; every other string gives Simple |
| OutputFormat.Display | src/config/output_format.rs:21-31 | Each format displays as a non-empty, capitalised name, which is what makes `FromDisplayIsSimple` hold |
| OutputFormat.DisplayInjective | src/config/output_format.rs:21-31 | Distinct formats display differently |
| OutputFormat.FromDisplayIsSimple | src/config/output_format.rs:11-31 | Matching is case-sensitive, so a displayed name reads back as Simple |
| Config.Default | src/config.rs:133-146 | Format Simple, 15 strings, NotVerbose, empty pattern, not pretty, seed 0, no transforms, the built-in catalog |
| Config.DefaultFragments | src/config.rs:32-97 | Eight fragments: seven leaves, each one plain part, then "syllable" with its nine parts; properties in `CatalogNamesDistinct`, `CatalogRanked` and `AssembleSyllable` |
| Config.CatalogNamesDistinct | src/config.rs:45-96 | The catalog has 8 fragments with pairwise distinct names |
| Config.CatalogRanked | src/config.rs:45-96 | The catalog's references are acyclic: every fragment is ranked below 2; the seven leaves refer to nothing, and "syllable" only to leaves |
| Config.OnlySyllableRefers | src/config.rs:81-95 | No leaf part is a reference; the references of "syllable" are its 2nd, 4th, 6th and 8th parts |
| Config.SyllableAssembles | src/config.rs:83-93 | The parts of "syllable" assemble to the join of their catalog texts |
| Config.AssembleSyllable | src/config.rs:34-95 | `@syllable@` assembles to "(" + consonants + "(" + clusters + "\|" + vowels + ")" + consonants + "?)" |
| Config.PrintlnVerbosity | src/config.rs:148-152 | The message is printed exactly when the configured verbosity is at least the level |
| Config.PrintlnV0 | src/config.rs:163-165 | `println_v0` always prints the message |
| Config.PrintlnV1 | src/config.rs:166-168 | `println_v1` prints the message exactly when the configuration is not NotVerbose, and nothing otherwise |
| Config.PrintlnV2 | src/config.rs:169-171 | `println_v2` prints the message exactly when the configuration is VeryVerbose, and nothing otherwise |
| Config.GateMonotone | src/config.rs:148-152 | A message printed at a level is also printed at every lower level |

## Left out

- The regular-expression parser behind `RegexGen::new` is a parameter, a partial function from strings to expression trees. It is not part of this model.
- Rand.Rng.Uniform: states only the range of the draw. It claims nothing about uniformity.
- Rand.Rng.Shuffle: states only that the multiset is kept. It claims nothing about the distribution of permutations.
- The PCG generator and entropy seeding are replaced by a small stand-in generator that meets those two contracts. The engine's results are therefore stated as the set of possible outcomes, not as probabilities.
- RegexGen.RandomizeFor: states the possible outcomes of a run, not which one a given generator state leads to.
- Pattern.AssemblePattern: takes a ghost rank and level proving that the fragments the parts reach are acyclic, which the source does not check. The source has no cycle guard, so a pattern that reaches a cycle recurses without end and has no result to model. The requirement also covers parts after a failing part, which the source never reaches.
- Pattern.ReferencedPattern: takes the same acyclicity witness, for the same reason.
- Generate.Generate: has no seed input, because the source seeds its generator from entropy. The generator is passed in as `rng`.
- Xform.TitleCasePointwise: covers ASCII word characters only. Unicode `\w` and `\b` are not modelled.
- Xform.CaseMappings: covers ASCII letters only. Full Unicode case mapping (`to_lowercase`, `to_uppercase`) is not modelled.
- Xform.TitleCaseString: non-ASCII characters pass through unchanged, where the source maps them, possibly to several characters ("ß" becomes "SS"). The length is kept only on ASCII text.
- Xform.LowerCaseString: non-ASCII characters pass through unchanged, where the source maps them, possibly to several characters ("İ" becomes "i" and a combining dot). The length is kept only on ASCII text.
- Xform.UpperCaseString: non-ASCII characters pass through unchanged, where the source maps them, possibly to several characters ("ß" becomes "SS"). The length is kept only on ASCII text.
- Xform.Apply: inherits the ASCII-only case mapping of the three case transforms. Its length statements hold only on ASCII text.
- Two `Fragment` types appear in the source. `Pattern.Fragment` holds a composite pattern, as the catalog and the recursive assembler use it. `Generate.FlatFragment` holds a plain string, as the record in `src/config/fragment.rs` and the older assembler use it. The empty `Default` of that record is not modelled separately.
- The `Default` and `From` constructors of `CompositePattern` are modelled as plain functions (`Pattern.Default`, `Pattern.FromStr`, `Pattern.FromSlice`). They need no contract of their own.
- Serde machinery:
  - Serialised values are the datatype `Pattern.Value`.
  - The error for a value that is neither a string nor a sequence is an absent result.
  - `#[serde(default)]` on the configuration fields is not modelled.
- Pattern.Deserialize: models the visitor of `src/pattern.rs` only. A `StrElement` stands for a string the JSON reader can lend as `&str`, one without escapes. An escaped string cannot be borrowed, so in the source it fails the load rather than being read as a part. The reader's rejection of elements left unread after the visitor stops is not modelled, so `["a", 1, "b"]` is an error in the source where the visitor alone keeps `["a"]`.
- Pattern.RoundTrip: holds for the visitor. Through the JSON reader it holds only when no part needs escaping.
- Pattern.DeserializeStopsAtNonString: states where the visitor stops. In the source the JSON reader then rejects the value if any element follows the stop.
- Printing, colouring and the process around them are not modelled: `println_err`, `Display for Config` and the output writers. `Config.PrintlnVerbosity` returns the lines it would print.
- Command-line parsing, configuration files and `get_cfg_file_path` are not part of this model.
- The catalog's fragment descriptions are carried as data. No property is stated about them.
