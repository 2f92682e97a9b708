/**
  src/config/output_format.rs: the output formats, their (case-sensitive)
  conversion from a string, and their display names.
 */
module OutputFormat {

  datatype OutputFormat = Simple | Table | Json | Csv

  /** `impl From<&str> for OutputFormat`: total; every unrecognised name means Simple. */
  function FromStr(s: string): (f: OutputFormat)
    ensures f == Table <==> s == "table"
    ensures f == Json <==> s == "json"
    ensures f == Csv <==> s == "csv"
    ensures f == Simple <==> s != "table" && s != "json" && s != "csv"
  {
    match s
    case "table" => Table
    case "json" => Json
    case "csv" => Csv
    case _ => Simple
  }

  /** `impl Display for OutputFormat`: the variant's own name, capitalised. */
  function Display(f: OutputFormat): (s: string)
    ensures |s| > 0 && 'A' <= s[0] <= 'Z'
  {
    match f
    case Simple => "Simple"
    case Table => "Table"
    case Json => "Json"
    case Csv => "Csv"
  }

  /** Distinct formats display differently. */
  lemma DisplayInjective(a: OutputFormat, b: OutputFormat)
    ensures Display(a) == Display(b) ==> a == b
  {
  }

  /** Display is capitalised and FromStr is case-sensitive, so a displayed name reads back as Simple. */
  lemma FromDisplayIsSimple(f: OutputFormat)
    ensures FromStr(Display(f)) == Simple
  {
  }
}
