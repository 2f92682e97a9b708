/**
  Small shared vocabulary: an optional value, string joining, and the machine-integer ranges the
  Rust code works with (`u8`, `u32`, `u64`). Dafny integers are unbounded, so each
  width is a subset type and any arithmetic that could leave it is written out
  where it is used.
 */
module Common {

  datatype Option<+T> = None | Some(value: T)

  const U8_LIMIT: int := 0x100
  const U32_MAX: int := 0xFFFF_FFFF
  const U64_LIMIT: int := 0x1_0000_0000_0000_0000

  type U8 = x: int | 0 <= x < U8_LIMIT
  type U32 = x: int | 0 <= x <= U32_MAX
  type U64 = x: int | 0 <= x < U64_LIMIT

  /** The concatenation of a list of strings, in order (`join("")`). */
  function Flatten(ss: seq<string>): string
  {
    if ss == [] then "" else Flatten(ss[..|ss| - 1]) + ss[|ss| - 1]
  }

  /** Joining a list that grows by one string grows the joined text by that string. */
  lemma FlattenSnoc(ss: seq<string>, s: string)
    ensures Flatten(ss + [s]) == Flatten(ss) + s
  {
    assert (ss + [s])[..|ss|] == ss;
  }
}
