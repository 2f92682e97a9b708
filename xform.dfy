/**
  src/xform.rs: the post-generation text transforms, their dispatch, and the
  parser for transform names. The regular expressions the source hands to
  `replace_all` are written out as direct left-to-right scans; word characters
  and case mapping are restricted to ASCII.
 */
module Xform {

  datatype Xform = UAfterQ | LowerCase | UpperCase | TitleCase

  /** `Result<Xform, &'static str>`, the result of parsing a transform name. */
  datatype ParseResult = Ok(value: Xform) | Err(error: string)

  predicate IsQ(c: char) { c == 'q' || c == 'Q' }
  predicate IsU(c: char) { c == 'u' || c == 'U' }

  /** How many characters `(?:u|U)+` consumes at the front of `s` (0 when the group does not match). */
  function URun(s: string): (n: nat)
    ensures n <= |s|
    ensures forall i :: 0 <= i < n ==> IsU(s[i])
    ensures n < |s| ==> !IsU(s[n])
  {
    if s != [] && IsU(s[0]) then 1 + URun(s[1..]) else 0
  }

  /**
    `xform_uafterq`: `replace_all` of `(q|Q)((?:u|U)+)?`. A match at a q/Q with no
    u-run after it becomes the q followed by a lowercase "u"; a match with a
    u-run is copied unchanged; text between matches is copied unchanged.
   */
  function UAfterQString(s: string): (r: string)
    ensures |r| >= |s|
    ensures s != [] ==> r != [] && r[0] == s[0]
    decreases |s|
  {
    if s == [] then []
    else if IsQ(s[0]) then
      var n := URun(s[1..]);
      if n == 0 then [s[0], 'u'] + UAfterQString(s[1..])
      else s[..1 + n] + UAfterQString(s[1 + n..])
    else [s[0]] + UAfterQString(s[1..])
  }

  /** Every q/Q is immediately followed by u or U. */
  ghost predicate QFollowedByU(s: string)
  {
    forall i :: 0 <= i < |s| && IsQ(s[i]) ==> i + 1 < |s| && IsU(s[i + 1])
  }

  /** The number of q/Q that are not immediately followed by u/U, counted character by character. */
  function BareQCount(s: string): nat
  {
    if s == [] then 0
    else (if IsQ(s[0]) && !(|s| > 1 && IsU(s[1])) then 1 else 0) + BareQCount(s[1..])
  }

  /** The source's examples: a bare q or Q gets its u. */
  lemma UAfterQInserts()
    ensures UAfterQString("qit") == "quit"
    ensures UAfterQString("Qit") == "Quit"
  {
    assert URun("it") == 0;
    assert "qit"[1..] == "it";
    assert "Qit"[1..] == "it";
    ItUnchanged();
  }

  /** The source's examples: a q or Q that already has its u, and a word without q, are unchanged. */
  lemma UAfterQKeeps()
    ensures UAfterQString("quit") == "quit"
    ensures UAfterQString("Quit") == "Quit"
    ensures UAfterQString("foo") == "foo"
  {
    assert URun("uit") == 1 by { assert "uit"[1..] == "it"; assert URun("it") == 0; }
    assert "quit"[1..] == "uit";
    assert "Quit"[1..] == "uit";
    assert "quit"[..2] == "qu";
    assert "Quit"[..2] == "Qu";
    assert "quit"[2..] == "it";
    assert "Quit"[2..] == "it";
    ItUnchanged();
    assert "foo"[1..] == "oo";
    assert "oo"[1..] == "o";
    assert "o"[1..] == "";
  }

  lemma ItUnchanged()
    ensures UAfterQString("it") == "it"
  {
    assert "it"[1..] == "t";
    assert "t"[1..] == "";
  }

  /** A string without q/Q is left unchanged. */
  lemma {:induction false} NoQUnchanged(s: string)
    requires forall i :: 0 <= i < |s| ==> !IsQ(s[i])
    ensures UAfterQString(s) == s
  {
    if s != [] {
      NoQUnchanged(s[1..]);
    }
  }

  /** A string in which every q/Q already has its u is a fixed point. */
  lemma {:induction false} FixedPoint(s: string)
    requires QFollowedByU(s)
    ensures UAfterQString(s) == s
  {
    if s == [] {
    } else if IsQ(s[0]) {
      var n := URun(s[1..]);
      assert n > 0;
      FixedPoint(s[1 + n..]);
      assert s[..1 + n] + s[1 + n..] == s;
    } else {
      FixedPoint(s[1..]);
    }
  }

  /** After the rewrite every q/Q is followed by u or U. */
  lemma {:induction false} UAfterQEstablishes(s: string)
    ensures QFollowedByU(UAfterQString(s))
  {
    if s == [] {
    } else if IsQ(s[0]) {
      var n := URun(s[1..]);
      if n == 0 {
        UAfterQEstablishes(s[1..]);
        ConcatKeepsQFollowedByU([s[0], 'u'], UAfterQString(s[1..]));
      } else {
        UAfterQEstablishes(s[1 + n..]);
        var head := s[..1 + n];
        assert forall i :: 1 <= i < |head| ==> IsU(head[i]);
        ConcatKeepsQFollowedByU(head, UAfterQString(s[1 + n..]));
      }
    } else {
      UAfterQEstablishes(s[1..]);
      ConcatKeepsQFollowedByU([s[0]], UAfterQString(s[1..]));
    }
  }

  lemma ConcatKeepsQFollowedByU(head: string, tail: string)
    requires head != [] && forall i :: 1 <= i < |head| ==> IsU(head[i])
    requires IsQ(head[0]) ==> |head| > 1
    requires QFollowedByU(tail)
    ensures QFollowedByU(head + tail)
  {
    var s := head + tail;
    forall i | 0 <= i < |s| && IsQ(s[i])
      ensures i + 1 < |s| && IsU(s[i + 1])
    {
      if i >= |head| {
        assert s[i] == tail[i - |head|];
      }
    }
  }

  /** Applying the rewrite twice is the same as applying it once. */
  lemma Idempotent(s: string)
    ensures UAfterQString(UAfterQString(s)) == UAfterQString(s)
  {
    UAfterQEstablishes(s);
    FixedPoint(UAfterQString(s));
  }

  /** The u's of a run contribute no bare q. */
  lemma {:induction false} BareQSkipsURun(t: string, n: nat)
    requires n <= URun(t)
    ensures BareQCount(t) == BareQCount(t[n..])
  {
    if n > 0 {
      assert IsU(t[0]) && !IsQ(t[0]);
      assert URun(t) == 1 + URun(t[1..]);
      assert BareQCount(t) == BareQCount(t[1..]);
      BareQSkipsURun(t[1..], n - 1);
      assert t[1..][n - 1..] == t[n..];
    }
  }

  /** The rewrite only inserts: one "u" for each bare q/Q. */
  lemma {:induction false} UAfterQLength(s: string)
    ensures |UAfterQString(s)| == |s| + BareQCount(s)
  {
    if s == [] {
    } else if IsQ(s[0]) {
      var n := URun(s[1..]);
      if n == 0 {
        UAfterQLength(s[1..]);
      } else {
        UAfterQLength(s[1 + n..]);
        BareQSkipsURun(s[1..], n);
        assert s[1..][n..] == s[1 + n..];
      }
    } else {
      UAfterQLength(s[1..]);
    }
  }

  // ---- Title case (ASCII word characters) ----

  predicate IsWordChar(c: char)
  {
    ('a' <= c <= 'z') || ('A' <= c <= 'Z') || ('0' <= c <= '9') || c == '_'
  }

  function ToUpper(c: char): char
  {
    if 'a' <= c <= 'z' then (c as int - 32) as char else c
  }

  function ToLower(c: char): char
  {
    if 'A' <= c <= 'Z' then (c as int + 32) as char else c
  }

  /** Length of the maximal run of word characters at the front of `s`. */
  function WordRun(s: string): (n: nat)
    ensures n <= |s|
    ensures forall i :: 0 <= i < n ==> IsWordChar(s[i])
    ensures n < |s| ==> !IsWordChar(s[n])
  {
    if s != [] && IsWordChar(s[0]) then 1 + WordRun(s[1..]) else 0
  }

  /**
    `xform_titlecase`: `replace_all` of `\b(\w)(\w*)\b`, which matches each maximal
    run of word characters; the run's first character is uppercased.
   */
  function TitleCaseString(s: string): (r: string)
    ensures |r| == |s|
    decreases |s|
  {
    if s == [] then []
    else if IsWordChar(s[0]) then
      var n := WordRun(s);
      [ToUpper(s[0])] + s[1..n] + TitleCaseString(s[n..])
    else [s[0]] + TitleCaseString(s[1..])
  }

  /** Position i begins a word: a word character with no word character just before it. */
  predicate StartsWord(s: string, i: int)
    requires 0 <= i < |s|
  {
    IsWordChar(s[i]) && (i == 0 || !IsWordChar(s[i - 1]))
  }

  /** Title case uppercases exactly the first character of each word and changes nothing else. */
  lemma {:induction false} TitleCasePointwise(s: string)
    ensures |TitleCaseString(s)| == |s|
    ensures forall i :: 0 <= i < |s| ==>
      TitleCaseString(s)[i] == (if StartsWord(s, i) then ToUpper(s[i]) else s[i])
  {
    if s == [] {
    } else if IsWordChar(s[0]) {
      var n := WordRun(s);
      var t := s[n..];
      TitleCasePointwise(t);
      var r := TitleCaseString(s);
      assert r == [ToUpper(s[0])] + s[1..n] + TitleCaseString(t);
      forall i | 0 <= i < |s|
        ensures r[i] == (if StartsWord(s, i) then ToUpper(s[i]) else s[i])
      {
        if i >= n {
          assert s[i] == t[i - n];
          if i > n {
            assert s[i - 1] == t[i - n - 1];
          }
        }
      }
    } else {
      var t := s[1..];
      TitleCasePointwise(t);
      var r := TitleCaseString(s);
      forall i | 0 <= i < |s|
        ensures r[i] == (if StartsWord(s, i) then ToUpper(s[i]) else s[i])
      {
        if i >= 1 {
          assert s[i] == t[i - 1];
          if i > 1 {
            assert s[i - 1] == t[i - 2];
          }
        }
      }
    }
  }

  /** Title-casing an already title-cased string changes nothing. */
  lemma TitleCaseIdempotent(s: string)
    ensures TitleCaseString(TitleCaseString(s)) == TitleCaseString(s)
  {
    var t := TitleCaseString(s);
    TitleCasePointwise(s);
    TitleCasePointwise(t);
    assert forall i :: 0 <= i < |s| ==> IsWordChar(t[i]) == IsWordChar(s[i]);
    assert forall i :: 0 <= i < |s| ==> StartsWord(t, i) == StartsWord(s, i);
  }

  // ---- Lower and upper case (ASCII) ----

  function LowerCaseString(s: string): (r: string)
    ensures |r| == |s| && forall i :: 0 <= i < |r| ==> !('A' <= r[i] <= 'Z')
  {
    seq(|s|, i requires 0 <= i < |s| => ToLower(s[i]))
  }

  function UpperCaseString(s: string): (r: string)
    ensures |r| == |s| && forall i :: 0 <= i < |r| ==> !('a' <= r[i] <= 'z')
  {
    seq(|s|, i requires 0 <= i < |s| => ToUpper(s[i]))
  }

  /** ASCII case mapping keeps the length, and afterwards no ASCII letter of the other case is left. */
  lemma CaseMappings(s: string)
    ensures |LowerCaseString(s)| == |s| && |UpperCaseString(s)| == |s|
    ensures forall i :: 0 <= i < |s| ==> !('A' <= LowerCaseString(s)[i] <= 'Z')
    ensures forall i :: 0 <= i < |s| ==> !('a' <= UpperCaseString(s)[i] <= 'z')
    ensures LowerCaseString(LowerCaseString(s)) == LowerCaseString(s)
    ensures UpperCaseString(UpperCaseString(s)) == UpperCaseString(s)
  {
  }

  /** `Xform::xform`: each variant runs its own rewrite; only u-after-q can lengthen the text. */
  function Apply(x: Xform, s: string): (r: string)
    ensures |r| >= |s|
    ensures x != UAfterQ ==> |r| == |s|
  {
    match x
    case UAfterQ => UAfterQString(s)
    case LowerCase => LowerCaseString(s)
    case UpperCase => UpperCaseString(s)
    case TitleCase => TitleCaseString(s)
  }

  /** Every transform is idempotent: applying it to its own output changes nothing. */
  lemma ApplyIdempotent(x: Xform, s: string)
    ensures Apply(x, Apply(x, s)) == Apply(x, s)
  {
    match x
    case UAfterQ => Idempotent(s);
    case LowerCase => CaseMappings(s);
    case UpperCase => CaseMappings(s);
    case TitleCase => TitleCaseIdempotent(s);
  }

  /** The four rewrites are different functions: on "qa" they give four different results. */
  lemma DispatchDistinguishesVariants(x: Xform, y: Xform)
    ensures Apply(x, "qa") == Apply(y, "qa") ==> x == y
  {
    assert URun("a") == 0;
    assert "qa"[1..] == "a";
    assert UAfterQString("a") == "a";
    assert Apply(UAfterQ, "qa") == "qua";
    assert Apply(LowerCase, "qa") == "qa";
    assert Apply(UpperCase, "qa") == "QA";
    assert WordRun("qa") == 2 by { assert WordRun("a") == 1 by { assert "a"[1..] == ""; } assert "qa"[1..] == "a"; }
    assert Apply(TitleCase, "qa") == "Qa" by { assert "qa"[2..] == ""; }
  }

  // ---- Transform names ----

  /** Rust's `char::is_whitespace`: the Unicode White_Space property. */
  predicate IsWhitespace(c: char)
  {
    var n := c as int;
    (0x09 <= n <= 0x0D) || n == 0x20 || n == 0x85 || n == 0xA0 || n == 0x1680
    || (0x2000 <= n <= 0x200A) || n == 0x2028 || n == 0x2029 || n == 0x202F
    || n == 0x205F || n == 0x3000
  }

  function LeadingWhitespace(s: string): (n: nat)
    ensures n <= |s|
    ensures forall i :: 0 <= i < n ==> IsWhitespace(s[i])
    ensures n < |s| ==> !IsWhitespace(s[n])
  {
    if s != [] && IsWhitespace(s[0]) then 1 + LeadingWhitespace(s[1..]) else 0
  }

  function TrailingWhitespace(s: string): (n: nat)
    ensures n <= |s|
    ensures forall i :: |s| - n <= i < |s| ==> IsWhitespace(s[i])
    ensures n < |s| ==> !IsWhitespace(s[|s| - n - 1])
  {
    if s != [] && IsWhitespace(s[|s| - 1]) then 1 + TrailingWhitespace(s[..|s| - 1]) else 0
  }

  /** `str::trim`: drop leading and trailing whitespace. */
  function Trim(s: string): (r: string)
    ensures r != [] ==> !IsWhitespace(r[0]) && !IsWhitespace(r[|r| - 1])
  {
    var t := s[LeadingWhitespace(s)..];
    t[..|t| - TrailingWhitespace(t)]
  }

  /** What trim removes is whitespace, from the two ends only. */
  lemma TrimIsInfix(s: string)
    ensures exists i, j ::
              && 0 <= i <= j <= |s| && Trim(s) == s[i..j]
              && (forall k :: 0 <= k < i ==> IsWhitespace(s[k]))
              && (forall k :: j <= k < |s| ==> IsWhitespace(s[k]))
  {
    var a := LeadingWhitespace(s);
    var t := s[a..];
    var b := TrailingWhitespace(t);
    assert t[..|t| - b] == s[a..|s| - b];
    assert forall k :: |s| - b <= k < |s| ==> s[k] == t[k - a];
  }

  /**
    `impl TryFrom<&str> for Xform`: trim, then match the exact name. It succeeds
    exactly when the trimmed text is a transform's name, and gives that transform.
   */
  function TryFrom(name: string): (r: ParseResult)
    ensures r.Ok? ==> TransformName(r.value) == Trim(name)
    ensures r.Err? ==> r.error == "Invalid transform type!" && forall x :: TransformName(x) != Trim(name)
  {
    FromTrimmed(Trim(name))
  }

  function FromTrimmed(name: string): ParseResult
  {
    match name
    case "u_after_q" => Ok(UAfterQ)
    case "title_case" => Ok(TitleCase)
    case "lower_case" => Ok(LowerCase)
    case "upper_case" => Ok(UpperCase)
    case _ => Err("Invalid transform type!")
  }

  /** Whitespace around a name that has no whitespace at its ends is trimmed away. */
  lemma {:induction false} TrimSurrounded(pre: string, s: string, post: string)
    requires forall k :: 0 <= k < |pre| ==> IsWhitespace(pre[k])
    requires forall k :: 0 <= k < |post| ==> IsWhitespace(post[k])
    requires s != [] && !IsWhitespace(s[0]) && !IsWhitespace(s[|s| - 1])
    ensures Trim(pre + s + post) == s
  {
    var w := pre + s + post;
    LeadingAfterPrefix(pre, s + post);
    assert w == pre + (s + post);
    var a := LeadingWhitespace(w);
    assert a == |pre|;
    var t := w[a..];
    assert t == s + post;
    TrailingBeforeSuffix(s, post);
  }

  lemma {:induction false} LeadingAfterPrefix(pre: string, rest: string)
    requires forall k :: 0 <= k < |pre| ==> IsWhitespace(pre[k])
    requires rest != [] && !IsWhitespace(rest[0])
    ensures LeadingWhitespace(pre + rest) == |pre|
  {
    if pre != [] {
      LeadingAfterPrefix(pre[1..], rest);
      assert (pre + rest)[1..] == pre[1..] + rest;
    }
  }

  lemma {:induction false} TrailingBeforeSuffix(body: string, post: string)
    requires forall k :: 0 <= k < |post| ==> IsWhitespace(post[k])
    requires body != [] && !IsWhitespace(body[|body| - 1])
    ensures TrailingWhitespace(body + post) == |post|
  {
    if post != [] {
      TrailingBeforeSuffix(body, post[..|post| - 1]);
      assert (body + post)[..|body + post| - 1] == body + post[..|post| - 1];
    }
  }

  /** Whitespace around a name does not change how it is parsed. */
  lemma TryFromIgnoresSurroundingWhitespace(pre: string, name: string, post: string)
    requires forall k :: 0 <= k < |pre| ==> IsWhitespace(pre[k])
    requires forall k :: 0 <= k < |post| ==> IsWhitespace(post[k])
    requires name != [] && !IsWhitespace(name[0]) && !IsWhitespace(name[|name| - 1])
    ensures TryFrom(pre + name + post) == TryFrom(name)
  {
    TrimSurrounded(pre, name, post);
    TrimSurrounded([], name, []);
    assert [] + name + [] == name;
    assert Trim(pre + name + post) == Trim(name);
  }

  lemma TrimUnpadded(name: string)
    requires name != [] && !IsWhitespace(name[0]) && !IsWhitespace(name[|name| - 1])
    ensures Trim(name) == name
  {
    TrimSurrounded([], name, []);
    assert [] + name + [] == name;
  }

  /** The name under which each transform is accepted on the command line. */
  function TransformName(x: Xform): string
  {
    match x
    case UAfterQ => "u_after_q"
    case TitleCase => "title_case"
    case LowerCase => "lower_case"
    case UpperCase => "upper_case"
  }

  /** The transform names start and end with a letter. */
  lemma NameUnpadded(x: Xform)
    ensures var name := TransformName(x);
      name != [] && !IsWhitespace(name[0]) && !IsWhitespace(name[|name| - 1])
  {
    var name := TransformName(x);
    assert name[0] in "utl" && name[|name| - 1] in "qe";
  }

  /** Each transform's own name parses back to it, also with whitespace around it. */
  lemma TryFromNameRoundTrip(x: Xform, pre: string, post: string)
    requires forall k :: 0 <= k < |pre| ==> IsWhitespace(pre[k])
    requires forall k :: 0 <= k < |post| ==> IsWhitespace(post[k])
    ensures TryFrom(TransformName(x)) == Ok(x)
    ensures TryFrom(pre + TransformName(x) + post) == Ok(x)
  {
    var name := TransformName(x);
    NameUnpadded(x);
    TrimUnpadded(name);
    assert FromTrimmed(name) == Ok(x) by {
      match x
      case UAfterQ =>
      case TitleCase =>
      case LowerCase =>
      case UpperCase =>
    }
    TryFromIgnoresSurroundingWhitespace(pre, name, post);
  }

  /** TryFrom fails exactly when the trimmed name is none of the four. */
  lemma TryFromErrors(name: string)
    ensures TryFrom(name).Err? <==>
      Trim(name) !in {"u_after_q", "title_case", "lower_case", "upper_case"}
    ensures TryFrom(name).Err? ==> TryFrom(name).error == "Invalid transform type!"
  {
  }
}
