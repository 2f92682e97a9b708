/**
  src/config/verbose.rs: the three verbosity levels, their conversion from the
  command line's `u8` count, the ordering derived from declaration order, and
  their display names.
 */
module Verbose {
  import opened Common

  datatype Verbosity = NotVerbose | Verbose | VeryVerbose

  /** The discriminant `#[derive(PartialOrd)]` compares: the declaration index. */
  function Discriminant(v: Verbosity): nat
  {
    match v
    case NotVerbose => 0
    case Verbose => 1
    case VeryVerbose => 2
  }

  /** `a >= b` under the derived ordering. */
  predicate AtLeast(a: Verbosity, b: Verbosity)
  {
    Discriminant(a) >= Discriminant(b)
  }

  /** `impl From<u8> for Verbosity`. */
  function FromU8(n: U8): (v: Verbosity)
    ensures v == NotVerbose <==> n == 0
    ensures v == Verbose <==> n == 1
    ensures v == VeryVerbose <==> n >= 2
  {
    match n
    case 0 => NotVerbose
    case 1 => Verbose
    case _ => VeryVerbose
  }

  /** `impl Display for Verbosity`: the variant's own name, capitalised. */
  function Display(v: Verbosity): (s: string)
    ensures |s| > 0 && 'A' <= s[0] <= 'Z'
  {
    match v
    case NotVerbose => "NotVerbose"
    case Verbose => "Verbose"
    case VeryVerbose => "VeryVerbose"
  }

  /** The derived ordering is a total order with NotVerbose < Verbose < VeryVerbose. */
  lemma OrderIsTotal(a: Verbosity, b: Verbosity, c: Verbosity)
    ensures AtLeast(a, b) || AtLeast(b, a)
    ensures AtLeast(a, b) && AtLeast(b, a) ==> a == b
    ensures AtLeast(a, b) && AtLeast(b, c) ==> AtLeast(a, c)
    ensures AtLeast(Verbose, NotVerbose) && !AtLeast(NotVerbose, Verbose)
    ensures AtLeast(VeryVerbose, Verbose) && !AtLeast(Verbose, VeryVerbose)
  {
  }

  /** A larger count never gives a lower level. */
  lemma FromU8Monotone(m: U8, n: U8)
    requires m <= n
    ensures AtLeast(FromU8(n), FromU8(m))
  {
  }

  /** Each level has its own name, so the displayed text identifies the level. */
  lemma DisplayInjective(a: Verbosity, b: Verbosity)
    ensures Display(a) == Display(b) ==> a == b
  {
  }
}
