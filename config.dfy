/**
  src/config.rs: the defaults of the configuration, the built-in catalog of
  fragments, and the verbosity gate in front of every message.
 */
module Config {
  import opened Common
  import opened Pattern
  import Verbose
  import OutputFormat
  import Xform

  /** `Config`. The pattern and the fragments use the composite representation. */
  datatype Config = Config(
    format: OutputFormat.OutputFormat,
    number: U32,
    verbosity: Verbose.Verbosity,
    pattern: CompositePattern,
    pretty: bool,
    seed: U64,
    fragments: seq<Fragment>,
    xforms: seq<Xform.Xform>)

  // ---- The built-in catalog ----

  const LOWER_VOWELS: string := "(a|e|i|o|u)"
  const UPPER_VOWELS: string := "(A|E|I|O|U)"
  const LOWER_VOWELS_Y: string := "(a|e|i|o|u|y)"
  const UPPER_VOWELS_Y: string := "(A|E|I|O|U|Y)"
  const LOWER_CONS: string := "(b|c|d|f|g|h|j|k|l|m|n|p|q|r|s|t|v|w|x|y|z)"
  const UPPER_CONS: string := "(B|C|D|F|G|H|J|K|L|M|N|P|Q|R|S|T|V|W|X|Y|Z)"
  const VOWEL_CLUSTER: string := "(ae|ai|ou|ia|ei|ou|ou|ui|iu|ea|oi|ua|au|ao|oa|ee|oo)"

  /** The parts of the "syllable" fragment: consonant, cluster or vowel, optional consonant. */
  const SYLLABLE_PARTS: seq<string> :=
    ["(", Ref("lower_cons"), "(", Ref("vowel_cluster"), "|", Ref("lower_vowel"), ")", Ref("lower_cons"), "?)"]

  /** The part that refers to the fragment `name`: `@name@`. */
  function Ref(name: string): (part: string)
    ensures IsReference(part) && ReferenceName(part) == Some(name)
  {
    var part := "@" + name + "@";
    assert part[..|part| - 1] == "@" + name;
    assert ("@" + name)[1..] == name;
    part
  }

  /**
    `default_fragments`: the catalog, in its order. Seven leaves, each a single
    plain part, then "syllable", the only fragment that refers to others.
   */
  function DefaultFragments(): (frags: seq<Fragment>)
    ensures |frags| == 8
    ensures forall j :: 0 <= j < 7 ==> |frags[j].pattern.parts| == 1 && !IsReference(frags[j].pattern.parts[0])
    ensures frags[7].name == "syllable" && frags[7].pattern.parts == SYLLABLE_PARTS
  {
    [ Fragment("lower_vowel", FromStr(LOWER_VOWELS), "Lowercase vowels, excluding `y`"),
      Fragment("upper_vowel", FromStr(UPPER_VOWELS), "Uppercase vowels, excluding `y`"),
      Fragment("lower_vowel_y", FromStr(LOWER_VOWELS_Y), "Lowercase vowels, including `y`"),
      Fragment("upper_vowel_y", FromStr(UPPER_VOWELS_Y), "Uppercase vowels, including `y`"),
      Fragment("lower_cons", FromStr(LOWER_CONS), "Lowercase consonants."),
      Fragment("upper_cons", FromStr(UPPER_CONS), "Uppercase consonants."),
      Fragment("vowel_cluster", FromStr(VOWEL_CLUSTER), "A cluster of readable vowels."),
      Fragment("syllable", FromSlice(SYLLABLE_PARTS), "A basic syllable.") ]
  }

  /** The acyclicity witness of the catalog: the seven leaves at rank 0, "syllable" above them. */
  const CATALOG_RANKS: seq<nat> := [0, 0, 0, 0, 0, 0, 0, 1]

  /** `Config::default`, built from the `default_*` helpers. */
  function Default(): (c: Config)
    ensures c.format == OutputFormat.Simple && c.number == 15 && c.verbosity == Verbose.NotVerbose
    ensures c.pattern.parts == [] && !c.pretty && c.seed == 0 && c.xforms == []
    ensures c.fragments == DefaultFragments()
  {
    Config(DefaultFormat(), DefaultNumber(), DefaultVerbosity(), Pattern.Default(),
           DefaultPretty(), 0, DefaultFragments(), DefaultXforms())
  }

  function DefaultFormat(): OutputFormat.OutputFormat { OutputFormat.Simple }
  function DefaultVerbosity(): Verbose.Verbosity { Verbose.NotVerbose }
  function DefaultNumber(): U32 { 15 }
  function DefaultPretty(): bool { false }
  function DefaultXforms(): seq<Xform.Xform> { [] }

  /** The catalog has eight fragments and no two share a name, so every catalog name resolves to its own entry. */
  lemma CatalogNamesDistinct()
    ensures |DefaultFragments()| == 8
    ensures forall i, j :: 0 <= i < j < 8 ==> DefaultFragments()[i].name != DefaultFragments()[j].name
  {
    var cat := DefaultFragments();
    forall i, j | 0 <= i < j < 8
      ensures cat[i].name != cat[j].name
    {
      NamesDiffer(i, j);
    }
  }

  lemma NamesDiffer(i: nat, j: nat)
    requires i < j < 8
    ensures DefaultFragments()[i].name != DefaultFragments()[j].name
  {
    var cat := DefaultFragments();
    if |cat[i].name| == |cat[j].name| {
      if i == 0 || i == 2 {
        assert cat[i].name[0] != cat[j].name[0];
      } else {
        assert cat[i].name[1] != cat[j].name[1] || cat[i].name[0] != cat[j].name[0];
      }
    }
  }

  /** A name carried by fragment `j` and by none before it resolves to `j`. */
  lemma ResolvesTo(frags: seq<Fragment>, name: string, j: nat)
    requires j < |frags| && frags[j].name == name
    requires forall k :: 0 <= k < j ==> frags[k].name != name
    ensures FirstNamed(Names(frags), name) == Some(j)
  {
    assert Names(frags)[j] == name;
  }

  /** "lower_cons" is the fifth catalog entry. */
  lemma LowerConsAt4()
    ensures FirstNamed(Names(DefaultFragments()), "lower_cons") == Some(4)
  {
    var cat := DefaultFragments();
    assert forall k :: 0 <= k < 4 ==> |cat[k].name| != |"lower_cons"|;
    ResolvesTo(cat, "lower_cons", 4);
  }

  /** "vowel_cluster" is the seventh catalog entry. */
  lemma VowelClusterAt6()
    ensures FirstNamed(Names(DefaultFragments()), "vowel_cluster") == Some(6)
  {
    var cat := DefaultFragments();
    assert forall k :: 0 <= k < 6 ==> cat[k].name[0] != 'v';
    ResolvesTo(cat, "vowel_cluster", 6);
  }

  /** "lower_vowel" is the first catalog entry. */
  lemma LowerVowelAt0()
    ensures FirstNamed(Names(DefaultFragments()), "lower_vowel") == Some(0)
  {
    ResolvesTo(DefaultFragments(), "lower_vowel", 0);
  }

  /** The name a reference part of "syllable" carries. */
  function ReferencedName(k: nat): string
  {
    if k == 3 then "vowel_cluster" else if k == 5 then "lower_vowel" else "lower_cons"
  }

  /** Every part of "syllable" is plain text or a reference to one of the seven leaves. */
  lemma SyllablePartBelow(k: nat)
    requires k < |SYLLABLE_PARTS|
    ensures PartBelow(SYLLABLE_PARTS[k], DefaultFragments(), CATALOG_RANKS, 1)
  {
    if k == 1 || k == 7 {
      assert SYLLABLE_PARTS[k] == Ref("lower_cons");
      LowerConsAt4();
    } else if k == 3 {
      VowelClusterAt6();
    } else if k == 5 {
      LowerVowelAt0();
    } else {
      assert !IsReference(SYLLABLE_PARTS[k]);
    }
  }

  /** A part that is not a reference refers to nothing. */
  lemma PlainPartBelow(part: string, frags: seq<Fragment>, rank: seq<nat>, level: nat)
    requires |rank| == |frags| && !IsReference(part)
    ensures RefsBelow([part], frags, rank, level)
  {
    assert [part][0] == part;
  }

  /** A leaf of the catalog is one plain part, so it refers to nothing. */
  lemma LeafBelow(j: nat)
    requires j < 7
    ensures RefsBelow(DefaultFragments()[j].pattern.parts, DefaultFragments(), CATALOG_RANKS, 0)
  {
    var part := DefaultFragments()[j].pattern.parts[0];
    assert DefaultFragments()[j].pattern.parts == [part];
    PlainPartBelow(part, DefaultFragments(), CATALOG_RANKS, 0);
  }

  /**
    Only "syllable" holds references; each one names a leaf. Every fragment is
    ranked below 2, so assembly of any pattern over the catalog terminates.
   */
  lemma CatalogRanked()
    ensures Ranked(DefaultFragments(), CATALOG_RANKS, 2)
    ensures Ranked(DefaultFragments(), CATALOG_RANKS, 1)
  {
    var cat := DefaultFragments();
    forall j | 0 <= j < 7
      ensures RefsBelow(cat[j].pattern.parts, cat, CATALOG_RANKS, CATALOG_RANKS[j])
    {
      LeafBelow(j);
    }
    forall k | 0 <= k < |SYLLABLE_PARTS|
      ensures PartBelow(SYLLABLE_PARTS[k], cat, CATALOG_RANKS, 1)
    {
      SyllablePartBelow(k);
    }
    assert cat[7].pattern.parts == SYLLABLE_PARTS;
  }

  /** The seven leaves hold no references, and "syllable" holds four. */
  lemma OnlySyllableRefers()
    ensures forall j, k :: 0 <= j < 7 && 0 <= k < |DefaultFragments()[j].pattern.parts| ==>
      !IsReference(DefaultFragments()[j].pattern.parts[k])
    ensures forall k :: 0 <= k < |SYLLABLE_PARTS| ==> (IsReference(SYLLABLE_PARTS[k]) <==> k in {1, 3, 5, 7})
  {
  }

  /** The text each part of "syllable" contributes when assembled against the catalog. */
  const SYLLABLE_TEXTS: seq<string> :=
    ["(", LOWER_CONS, "(", VOWEL_CLUSTER, "|", LOWER_VOWELS, ")", LOWER_CONS, "?)"]

  /** A reference to a rank-0 fragment made of one plain part expands to that part. */
  lemma LeafReferenceExpands(name: string, j: nat, text: string, frags: seq<Fragment>, rank: seq<nat>)
    requires Ranked(frags, rank, 1)
    requires FirstNamed(Names(frags), name) == Some(j) && rank[j] == 0
    requires frags[j].pattern.parts == [text] && !IsReference(text)
    ensures RefsBelow([Ref(name)], frags, rank, 1)
    ensures Expand(Ref(name), frags, rank, 1) == Ok(text)
  {
    assert [Ref(name)][0] == Ref(name);
    ExpandReference(name, frags, rank, 1);
    VerbatimParts([text], frags, rank, 0);
    assert Flatten([text]) == Flatten([text][..0]) + text;
  }

  /** A part that is not a reference expands to itself. */
  lemma PlainPartExpands(part: string, frags: seq<Fragment>, rank: seq<nat>, level: nat)
    requires Ranked(frags, rank, level) && !IsReference(part)
    ensures RefsBelow([part], frags, rank, level)
    ensures Expand(part, frags, rank, level) == Ok(part)
  {
    PlainPartBelow(part, frags, rank, level);
  }

  /** `@lower_cons@` expands to the lowercase consonants. */
  lemma LowerConsExpands()
    ensures Ranked(DefaultFragments(), CATALOG_RANKS, 1)
    ensures RefsBelow([Ref("lower_cons")], DefaultFragments(), CATALOG_RANKS, 1)
    ensures Expand(Ref("lower_cons"), DefaultFragments(), CATALOG_RANKS, 1) == Ok(LOWER_CONS)
  {
    CatalogRanked();
    LowerConsAt4();
    LeafReferenceExpands("lower_cons", 4, LOWER_CONS, DefaultFragments(), CATALOG_RANKS);
  }

  /** `@vowel_cluster@` expands to the vowel clusters. */
  lemma VowelClusterExpands()
    ensures Ranked(DefaultFragments(), CATALOG_RANKS, 1)
    ensures RefsBelow([Ref("vowel_cluster")], DefaultFragments(), CATALOG_RANKS, 1)
    ensures Expand(Ref("vowel_cluster"), DefaultFragments(), CATALOG_RANKS, 1) == Ok(VOWEL_CLUSTER)
  {
    CatalogRanked();
    VowelClusterAt6();
    LeafReferenceExpands("vowel_cluster", 6, VOWEL_CLUSTER, DefaultFragments(), CATALOG_RANKS);
  }

  /** `@lower_vowel@` expands to the lowercase vowels. */
  lemma LowerVowelExpands()
    ensures Ranked(DefaultFragments(), CATALOG_RANKS, 1)
    ensures RefsBelow([Ref("lower_vowel")], DefaultFragments(), CATALOG_RANKS, 1)
    ensures Expand(Ref("lower_vowel"), DefaultFragments(), CATALOG_RANKS, 1) == Ok(LOWER_VOWELS)
  {
    CatalogRanked();
    LowerVowelAt0();
    LeafReferenceExpands("lower_vowel", 0, LOWER_VOWELS, DefaultFragments(), CATALOG_RANKS);
  }

  /** Each part of "syllable" expands to its catalog text. */
  lemma SyllablePartExpands(k: nat)
    requires k < |SYLLABLE_PARTS|
    ensures Ranked(DefaultFragments(), CATALOG_RANKS, 1)
    ensures RefsBelow([SYLLABLE_PARTS[k]], DefaultFragments(), CATALOG_RANKS, 1)
    ensures Expand(SYLLABLE_PARTS[k], DefaultFragments(), CATALOG_RANKS, 1) == Ok(SYLLABLE_TEXTS[k])
  {
    if k == 1 || k == 7 {
      assert SYLLABLE_PARTS[k] == Ref("lower_cons") && SYLLABLE_TEXTS[k] == LOWER_CONS;
      LowerConsExpands();
    } else if k == 3 {
      VowelClusterExpands();
    } else if k == 5 {
      LowerVowelExpands();
    } else {
      assert SYLLABLE_TEXTS[k] == SYLLABLE_PARTS[k];
      CatalogRanked();
      PlainPartExpands(SYLLABLE_PARTS[k], DefaultFragments(), CATALOG_RANKS, 1);
    }
  }

  /** The "syllable" fragment's parts assemble to the catalog strings, joined in order. */
  lemma SyllableAssembles()
    ensures Ranked(DefaultFragments(), CATALOG_RANKS, 1)
    ensures RefsBelow(SYLLABLE_PARTS, DefaultFragments(), CATALOG_RANKS, 1)
    ensures AssembleParts(SYLLABLE_PARTS, DefaultFragments(), CATALOG_RANKS, 1) == Ok(Flatten(SYLLABLE_TEXTS))
  {
    var cat := DefaultFragments();
    CatalogRanked();
    forall k | 0 <= k < |SYLLABLE_PARTS|
      ensures PartBelow(SYLLABLE_PARTS[k], cat, CATALOG_RANKS, 1)
    {
      SyllablePartBelow(k);
    }
    forall k | 0 <= k < |SYLLABLE_PARTS|
      ensures RefsBelow([SYLLABLE_PARTS[k]], cat, CATALOG_RANKS, 1)
      ensures Expand(SYLLABLE_PARTS[k], cat, CATALOG_RANKS, 1) == Ok(SYLLABLE_TEXTS[k])
    {
      SyllablePartExpands(k);
    }
    AssembleEach(SYLLABLE_PARTS, SYLLABLE_TEXTS, cat, CATALOG_RANKS, 1);
  }

  lemma SyllableJoin()
    ensures Flatten(SYLLABLE_TEXTS)
         == "(" + LOWER_CONS + "(" + VOWEL_CLUSTER + "|" + LOWER_VOWELS + ")" + LOWER_CONS + "?)"
  {
    var t := SYLLABLE_TEXTS;
    assert t[..0] == [];
    assert Flatten(t[..1]) == "(";
    assert Flatten(t[..2]) == "(" + LOWER_CONS by { assert t[..2][..1] == t[..1]; }
    assert Flatten(t[..3]) == "(" + LOWER_CONS + "(" by { assert t[..3][..2] == t[..2]; }
    assert Flatten(t[..4]) == "(" + LOWER_CONS + "(" + VOWEL_CLUSTER by { assert t[..4][..3] == t[..3]; }
    assert Flatten(t[..5]) == "(" + LOWER_CONS + "(" + VOWEL_CLUSTER + "|" by { assert t[..5][..4] == t[..4]; }
    assert Flatten(t[..6]) == "(" + LOWER_CONS + "(" + VOWEL_CLUSTER + "|" + LOWER_VOWELS by { assert t[..6][..5] == t[..5]; }
    assert Flatten(t[..7]) == "(" + LOWER_CONS + "(" + VOWEL_CLUSTER + "|" + LOWER_VOWELS + ")" by { assert t[..7][..6] == t[..6]; }
    assert Flatten(t[..8]) == "(" + LOWER_CONS + "(" + VOWEL_CLUSTER + "|" + LOWER_VOWELS + ")" + LOWER_CONS by { assert t[..8][..7] == t[..7]; }
    assert t[..9] == t && t[..9][..8] == t[..8];
  }

  /**
    Assembling "@syllable@" against the catalog: a consonant, a vowel cluster or
    a single vowel, and an optional consonant, each as its catalog pattern.
   */
  lemma AssembleSyllable()
    ensures Ranked(DefaultFragments(), CATALOG_RANKS, 2)
    ensures RefsBelow(FromStr(Ref("syllable")).parts, DefaultFragments(), CATALOG_RANKS, 2)
    ensures AssembleParts(FromStr(Ref("syllable")).parts, DefaultFragments(), CATALOG_RANKS, 2)
         == Ok("(" + LOWER_CONS + "(" + VOWEL_CLUSTER + "|" + LOWER_VOWELS + ")" + LOWER_CONS + "?)")
  {
    var cat := DefaultFragments();
    CatalogRanked();
    assert forall k :: 0 <= k < 7 ==> |cat[k].name| != |"syllable"|;
    FirstMatchWins("syllable", 7, cat, CATALOG_RANKS, 2);
    assert Ref("syllable") == "@" + "syllable" + "@";
    assert cat[7].pattern.parts == SYLLABLE_PARTS && CATALOG_RANKS[7] == 1;
    SyllableAssembles();
    SyllableJoin();
  }

  // ---- Messages gated by verbosity ----

  /**
    `println_verbosity`: the lines printed for `message` at `level`, the message
    itself when the configured verbosity is at least `level`, nothing otherwise.
   */
  function PrintlnVerbosity(level: Verbose.Verbosity, config: Config, message: string): (lines: seq<string>)
    ensures lines == [message] <==> Verbose.AtLeast(config.verbosity, level)
    ensures lines == [] <==> !Verbose.AtLeast(config.verbosity, level)
  {
    if Verbose.AtLeast(config.verbosity, level) then [message] else []
  }

  /** `println_v0`: always prints. */
  function PrintlnV0(config: Config, message: string): (lines: seq<string>)
    ensures lines == [message]
  {
    PrintlnVerbosity(Verbose.NotVerbose, config, message)
  }

  /** `println_v1`: prints unless the configuration is not verbose. */
  function PrintlnV1(config: Config, message: string): (lines: seq<string>)
    ensures lines == [message] <==> config.verbosity != Verbose.NotVerbose
    ensures lines == [] <==> config.verbosity == Verbose.NotVerbose
  {
    PrintlnVerbosity(Verbose.Verbose, config, message)
  }

  /** `println_v2`: prints only when the configuration is very verbose. */
  function PrintlnV2(config: Config, message: string): (lines: seq<string>)
    ensures lines == [message] <==> config.verbosity == Verbose.VeryVerbose
    ensures lines == [] <==> config.verbosity != Verbose.VeryVerbose
  {
    PrintlnVerbosity(Verbose.VeryVerbose, config, message)
  }

  /** A message printed at some level is also printed at every lower level. */
  lemma GateMonotone(a: Verbose.Verbosity, b: Verbose.Verbosity, config: Config, message: string)
    requires Verbose.AtLeast(a, b)
    ensures PrintlnVerbosity(a, config, message) == [message] ==> PrintlnVerbosity(b, config, message) == [message]
  {
  }
}
