/**
  UTF-8 as RFC 3629 defines it (section 3, the encoding table, and section 4,
  the byte-sequence syntax): the strict encoder and decoder the class sampler in
  src/generate/regex_gen.rs calls through the `encoding` crate. A Dafny `char`
  is a Unicode scalar value, so encoding never fails.
 */
module Utf8 {
  import opened Common

  /** A continuation byte, `10xxxxxx`. */
  predicate IsContinuation(b: int)
  {
    0x80 <= b <= 0xBF
  }

  /** The first byte of a scalar value's encoding: the value itself, or a length marker and its high bits. */
  function LeadByte(c: char): (b: U8)
    ensures b < 0xF5
    ensures (c as int) < 0x80 <==> b < 0x80
    ensures (c as int) < 0x80 ==> b == c as int
  {
    var n := c as int;
    if n < 0x80 then n
    else if n < 0x800 then 0xC0 + n / 0x40
    else if n < 0x1_0000 then 0xE0 + n / 0x1000
    else 0xF0 + n / 0x4_0000
  }

  /** The UTF-8 encoding of one scalar value, shortest form. */
  function Encode(c: char): (bs: seq<U8>)
    ensures 1 <= |bs| <= 4 && bs[0] == LeadByte(c)
    ensures |bs| == 1 <==> (c as int) < 0x80
    ensures |bs| == 2 <==> 0x80 <= (c as int) < 0x800
    ensures |bs| == 3 <==> 0x800 <= (c as int) < 0x1_0000
    ensures |bs| == 1 ==> bs[0] == c as int
    ensures |bs| == 2 ==> 0xC2 <= bs[0] <= 0xDF
    ensures |bs| == 3 ==> 0xE0 <= bs[0] <= 0xEF
    ensures |bs| == 4 ==> 0xF0 <= bs[0] <= 0xF4
    ensures forall k :: 1 <= k < |bs| ==> IsContinuation(bs[k])
  {
    var n := c as int;
    if n < 0x80 then [LeadByte(c)]
    else if n < 0x800 then [LeadByte(c), 0x80 + n % 0x40]
    else if n < 0x1_0000 then [LeadByte(c), 0x80 + (n / 0x40) % 0x40, 0x80 + n % 0x40]
    else [LeadByte(c), 0x80 + (n / 0x1000) % 0x40, 0x80 + (n / 0x40) % 0x40, 0x80 + n % 0x40]
  }

  /** The payload bits of a continuation byte. */
  function Low6(b: int): int
  {
    b - 0x80
  }

  /**
    Strict decoding of one encoded scalar value: the sequence must be exactly
    one well-formed code, not overlong, not a surrogate, not above U+10FFFF.
   */
  function Decode(bs: seq<U8>): (r: Option<char>)
  {
    if |bs| == 1 && bs[0] < 0x80 then
      Some(bs[0] as char)
    else if |bs| == 2 && 0xC2 <= bs[0] <= 0xDF && IsContinuation(bs[1]) then
      Some(((bs[0] - 0xC0) * 0x40 + Low6(bs[1])) as char)
    else if |bs| == 3 && 0xE0 <= bs[0] <= 0xEF && IsContinuation(bs[1]) && IsContinuation(bs[2]) then
      var n := (bs[0] - 0xE0) * 0x1000 + Low6(bs[1]) * 0x40 + Low6(bs[2]);
      if 0x800 <= n && !(0xD800 <= n <= 0xDFFF) then Some(n as char) else None
    else if |bs| == 4 && 0xF0 <= bs[0] <= 0xF4 && IsContinuation(bs[1]) && IsContinuation(bs[2])
      && IsContinuation(bs[3]) then
      var n := (bs[0] - 0xF0) * 0x4_0000 + Low6(bs[1]) * 0x1000 + Low6(bs[2]) * 0x40 + Low6(bs[3]);
      if 0x1_0000 <= n <= 0x10_FFFF then Some(n as char) else None
    else None
  }

  /** Decoding undoes encoding. */
  lemma DecodeEncode(c: char)
    ensures Decode(Encode(c)) == Some(c)
  {
    var n := c as int;
    if 0x1_0000 <= n {
      SplitFour(n);
    } else if 0x800 <= n {
      SplitThree(n);
    }
  }

  lemma SplitThree(n: int)
    requires 0x800 <= n < 0x1_0000
    ensures (n / 0x1000) * 0x1000 + ((n / 0x40) % 0x40) * 0x40 + n % 0x40 == n
  {
    var q := n / 0x40;
    assert q * 0x40 + n % 0x40 == n;
    assert (q / 0x40) * 0x40 + q % 0x40 == q;
    assert q / 0x40 == n / 0x1000;
  }

  lemma SplitFour(n: int)
    requires 0x1_0000 <= n
    ensures (n / 0x4_0000) * 0x4_0000 + ((n / 0x1000) % 0x40) * 0x1000 + ((n / 0x40) % 0x40) * 0x40 + n % 0x40 == n
  {
    var q := n / 0x40;
    var q2 := q / 0x40;
    assert q * 0x40 + n % 0x40 == n;
    assert q2 * 0x40 + q % 0x40 == q;
    assert (q2 / 0x40) * 0x40 + q2 % 0x40 == q2;
    assert q2 == n / 0x1000;
    assert q2 / 0x40 == n / 0x4_0000;
  }

  /** Encoding undoes decoding: a byte sequence that decodes is the encoding of what it decodes to. */
  lemma EncodeDecode(bs: seq<U8>)
    requires Decode(bs).Some?
    ensures Encode(Decode(bs).value) == bs
  {
    if |bs| == 2 {
      JoinTwo(bs[0] - 0xC0, Low6(bs[1]));
    } else if |bs| == 3 {
      JoinThree(bs[0] - 0xE0, Low6(bs[1]), Low6(bs[2]));
    } else if |bs| == 4 {
      JoinFour(bs[0] - 0xF0, Low6(bs[1]), Low6(bs[2]), Low6(bs[3]));
    }
  }

  lemma JoinTwo(a: int, b: int)
    requires 0 <= b < 0x40
    ensures (a * 0x40 + b) / 0x40 == a && (a * 0x40 + b) % 0x40 == b
  {
  }

  lemma JoinThree(a: int, b: int, c: int)
    requires 0 <= a && 0 <= b < 0x40 && 0 <= c < 0x40
    ensures var n := a * 0x1000 + b * 0x40 + c;
      n / 0x1000 == a && (n / 0x40) % 0x40 == b && n % 0x40 == c
  {
    var n := a * 0x1000 + b * 0x40 + c;
    JoinTwo(a * 0x40 + b, c);
    assert n == (a * 0x40 + b) * 0x40 + c;
    JoinTwo(a, b);
    DivDiv(n);
  }

  lemma JoinFour(a: int, b: int, c: int, d: int)
    requires 0 <= a && 0 <= b < 0x40 && 0 <= c < 0x40 && 0 <= d < 0x40
    ensures var n := a * 0x4_0000 + b * 0x1000 + c * 0x40 + d;
      n / 0x4_0000 == a && (n / 0x1000) % 0x40 == b && (n / 0x40) % 0x40 == c && n % 0x40 == d
  {
    var n := a * 0x4_0000 + b * 0x1000 + c * 0x40 + d;
    var m := a * 0x1000 + b * 0x40 + c;
    assert n == m * 0x40 + d;
    JoinTwo(m, d);
    JoinThree(a, b, c);
    DivDiv(n);
    DivDiv(n / 0x40);
    assert n / 0x4_0000 == (n / 0x1000) / 0x40;
  }

  lemma DivDiv(n: int)
    requires 0 <= n
    ensures (n / 0x40) / 0x40 == n / 0x1000
    ensures ((n / 0x40) / 0x40) / 0x40 == n / 0x4_0000
  {
  }

  /** Strict decoding of a one-byte sequence: a byte decodes exactly when it is ASCII, and then to itself. */
  function DecodeByte(b: U8): (r: Option<char>)
    ensures r.Some? <==> b < 0x80
    ensures r.Some? ==> r.value as int == b
  {
    if b < 0x80 then Some(b as char) else None
  }

  /** DecodeByte is Decode on a sequence of one byte. */
  lemma DecodeByteAgrees(b: U8)
    ensures DecodeByte(b) == Decode([b])
  {
  }

  /** Lead bytes are monotone in the scalar value. */
  lemma LeadByteMonotone(c: char, d: char)
    ensures (c as int) <= (d as int) ==> LeadByte(c) <= LeadByte(d)
  {
  }
}
