/**
  src/pattern.rs: a composite pattern is an ordered list of parts; a part that
  starts and ends with '@' refers to a named fragment, whose own composite pattern
  is assembled recursively against the same fragment list. Also the serialised
  shape of a composite pattern and its deserialisation.
 */
module Pattern {
  import opened Common

  datatype CompositePattern = CompositePattern(parts: seq<string>)

  datatype Fragment = Fragment(name: string, pattern: CompositePattern, description: string)

  /**
    The outcome of `assemble_pattern`, whose Rust type is `Result<String, String>`;
    `Panic` stands for the `unwrap` on a failed `strip_prefix`.
   */
  datatype Assembly = Ok(value: string) | Err(error: string) | Panic

  /** `impl Default for CompositePattern`. */
  function Default(): CompositePattern
  {
    CompositePattern([])
  }

  /** `impl From<&str> for CompositePattern`. */
  function FromStr(value: string): CompositePattern
  {
    CompositePattern([value])
  }

  /** `impl From<&[String]>` and `impl From<&[&str]>`: the parts, in order. */
  function FromSlice(values: seq<string>): CompositePattern
  {
    CompositePattern(values)
  }

  /** `p.starts_with("@") && p.ends_with("@")`. */
  predicate IsReference(part: string)
  {
    |part| > 0 && part[0] == '@' && part[|part| - 1] == '@'
  }

  /**
    `p.strip_suffix("@").unwrap().strip_prefix("@")`: the text between the two '@'s,
    or None for the one-character part "@", where `strip_prefix` finds nothing left.
   */
  function ReferenceName(part: string): (r: Option<string>)
    requires IsReference(part)
    ensures r.None? <==> |part| == 1
    ensures r.Some? ==> part == "@" + r.value + "@"
  {
    var stripped := part[..|part| - 1];
    if |stripped| > 0 && stripped[0] == '@' then Some(stripped[1..]) else None
  }

  /** The index of the first name equal to `name`, scanning in order. */
  function FirstNamed(names: seq<string>, name: string): (r: Option<nat>)
    ensures r.Some? ==> r.value < |names| && names[r.value] == name
    ensures r.Some? ==> forall k :: 0 <= k < r.value ==> names[k] != name
    ensures r.None? <==> forall k :: 0 <= k < |names| ==> names[k] != name
  {
    if names == [] then None
    else if names[0] == name then Some(0)
    else match FirstNamed(names[1..], name)
      case None => None
      case Some(j) => Some(j + 1)
  }

  /** The first index carrying the name is the one the search finds. */
  lemma {:induction false} FirstNamedAt(names: seq<string>, name: string, j: nat)
    requires j < |names| && names[j] == name
    requires forall k :: 0 <= k < j ==> names[k] != name
    ensures FirstNamed(names, name) == Some(j)
    decreases j
  {
    if j > 0 {
      assert names[0] != name;
      FirstNamedAt(names[1..], name, j - 1);
    }
  }

  function Names(frags: seq<Fragment>): (ns: seq<string>)
    ensures |ns| == |frags| && forall k :: 0 <= k < |frags| ==> ns[k] == frags[k].name
  {
    seq(|frags|, k requires 0 <= k < |frags| => frags[k].name)
  }

  /** The fragment a part makes the assembler expand, if any. */
  function Resolve(frags: seq<Fragment>, part: string): Option<nat>
  {
    if IsReference(part) then
      match ReferenceName(part)
      case Some(name) => FirstNamed(Names(frags), name)
      case None => None
    else None
  }

  /** Every fragment these parts make the assembler expand has rank below `level`. */
  ghost predicate RefsBelow(parts: seq<string>, frags: seq<Fragment>, rank: seq<nat>, level: nat)
    requires |rank| == |frags|
  {
    forall k :: 0 <= k < |parts| ==> PartBelow(parts[k], frags, rank, level)
  }

  ghost predicate PartBelow(part: string, frags: seq<Fragment>, rank: seq<nat>, level: nat)
    requires |rank| == |frags|
  {
    Resolve(frags, part).Some? ==> Resolve(frags, part).value < |frags| && rank[Resolve(frags, part).value] < level
  }

  /**
    `rank` witnesses that the references among the fragments ranked below `level`
    are acyclic: such a fragment only refers to fragments of lower rank. Fragments
    ranked at `level` or above are unconstrained, so a cycle that assembly never
    reaches costs nothing. The source has no cycle guard, so this is what assembly
    needs in order to terminate.
   */
  ghost predicate Ranked(frags: seq<Fragment>, rank: seq<nat>, level: nat)
  {
    |rank| == |frags|
    && forall j :: 0 <= j < |frags| && rank[j] < level ==> RefsBelow(frags[j].pattern.parts, frags, rank, rank[j])
  }

  /** A ranking that holds below a level holds below any lower one. */
  lemma RankedLower(frags: seq<Fragment>, rank: seq<nat>, top: nat, level: nat)
    requires Ranked(frags, rank, top) && level <= top
    ensures Ranked(frags, rank, level)
  {
  }

  /** Appending the expansion of one more part to the text assembled so far. */
  function Combine(sofar: Assembly, next: Assembly): Assembly
  {
    match sofar
    case Ok(pre) => (match next case Ok(x) => Ok(pre + x) case _ => next)
    case _ => sofar
  }

  /** The expansion of one part: verbatim text, a panic for "@", or the referenced fragment. */
  ghost function Expand(part: string, frags: seq<Fragment>, rank: seq<nat>, level: nat): Assembly
    requires Ranked(frags, rank, level) && RefsBelow([part], frags, rank, level)
    decreases level, 1
  {
    if !IsReference(part) then Ok(part)
    else match ReferenceName(part)
      case None => Panic
      case Some(name) =>
        assert Resolve(frags, [part][0]) == FirstNamed(Names(frags), name);
        ExpandName(name, frags, rank, level)
  }

  /** A reference to `name`: the first fragment so named, assembled; "" when there is none. */
  ghost function ExpandName(name: string, frags: seq<Fragment>, rank: seq<nat>, level: nat): Assembly
    requires Ranked(frags, rank, level)
    requires FirstNamed(Names(frags), name).Some? ==> rank[FirstNamed(Names(frags), name).value] < level
    decreases level, 0
  {
    match FirstNamed(Names(frags), name)
    case None => Ok("")
    case Some(j) => AssembleParts(frags[j].pattern.parts, frags, rank, rank[j])
  }

  /** The assembled parts, left to right: the reference semantics of `assemble_pattern`. */
  ghost function AssembleParts(parts: seq<string>, frags: seq<Fragment>, rank: seq<nat>, level: nat): Assembly
    requires Ranked(frags, rank, level) && RefsBelow(parts, frags, rank, level)
    decreases level, 2, |parts|
  {
    if parts == [] then Ok("")
    else
      var n := |parts| - 1;
      assert [parts[n]][0] == parts[n];
      assert forall k :: 0 <= k < n ==> parts[..n][k] == parts[k];
      Combine(AssembleParts(parts[..n], frags, rank, level), Expand(parts[n], frags, rank, level))
  }

  /**
    `CompositePattern::assemble_pattern`: loops over the parts appending to `pat`;
    a reference part is replaced by the first fragment of that name, assembled.
   */
  method AssemblePattern(p: CompositePattern, frags: seq<Fragment>, ghost rank: seq<nat>, ghost level: nat)
    returns (r: Assembly)
    requires Ranked(frags, rank, level) && RefsBelow(p.parts, frags, rank, level)
    ensures r == AssembleParts(p.parts, frags, rank, level)
    decreases level, 1
  {
    var pat := "";
    for i := 0 to |p.parts|
      invariant RefsBelow(p.parts[..i], frags, rank, level)
      invariant AssembleParts(p.parts[..i], frags, rank, level) == Ok(pat)
    {
      var part := p.parts[i];
      PrefixStep(p.parts, i, frags, rank, level);
      if IsReference(part) {
        var stripped := part[..|part| - 1];
        if !(|stripped| > 0 && stripped[0] == '@') {
          // `strip_prefix("@")` found nothing: `unwrap` panics.
          AbortPropagates(p.parts, i + 1, frags, rank, level);
          return Panic;
        }
        var s := ReferencedPattern(stripped[1..], frags, rank, level);
        if !s.Ok? {
          // `?` passes an error on; a panic unwinds.
          AbortPropagates(p.parts, i + 1, frags, rank, level);
          return s;
        }
        pat := pat + s.value;
      } else {
        pat := pat + part;
      }
    }
    assert p.parts[..|p.parts|] == p.parts;
    r := Ok(pat);
  }

  /**
    The block inside `assemble_pattern` that scans the fragments in order and, at
    the first whose name matches, assembles its pattern and stops.
   */
  method ReferencedPattern(name: string, frags: seq<Fragment>, ghost rank: seq<nat>, ghost level: nat)
    returns (r: Assembly)
    requires Ranked(frags, rank, level)
    requires FirstNamed(Names(frags), name).Some? ==> rank[FirstNamed(Names(frags), name).value] < level
    ensures r == ExpandName(name, frags, rank, level)
    decreases level, 0
  {
    r := Ok("");
    for j := 0 to |frags|
      invariant forall k :: 0 <= k < j ==> frags[k].name != name
    {
      if frags[j].name == name {
        assert FirstNamed(Names(frags), name) == Some(j);
        r := AssemblePattern(frags[j].pattern, frags, rank, rank[j]);
        return;
      }
    }
  }

  /** The facts the assembly loop needs to take one more part. */
  lemma PrefixStep(parts: seq<string>, i: nat, frags: seq<Fragment>, rank: seq<nat>, level: nat)
    requires Ranked(frags, rank, level) && RefsBelow(parts, frags, rank, level)
    requires i < |parts|
    ensures RefsBelow(parts[..i + 1], frags, rank, level)
    ensures RefsBelow([parts[i]], frags, rank, level)
    ensures parts[..i + 1][..i] == parts[..i]
    ensures RefsBelow(parts[..i], frags, rank, level)
    ensures AssembleParts(parts[..i + 1], frags, rank, level)
         == Combine(AssembleParts(parts[..i], frags, rank, level), Expand(parts[i], frags, rank, level))
  {
    assert forall k :: 0 <= k < i + 1 ==> parts[..i + 1][k] == parts[k];
    assert [parts[i]][0] == parts[i];
    assert parts[..i + 1][i] == parts[i];
  }

  /** Once a prefix of the parts has failed, the whole assembly has that same failure. */
  lemma {:induction false} AbortPropagates(parts: seq<string>, i: nat, frags: seq<Fragment>, rank: seq<nat>, level: nat)
    requires Ranked(frags, rank, level) && RefsBelow(parts, frags, rank, level)
    requires i <= |parts|
    requires RefsBelow(parts[..i], frags, rank, level)
    requires !AssembleParts(parts[..i], frags, rank, level).Ok?
    ensures AssembleParts(parts, frags, rank, level) == AssembleParts(parts[..i], frags, rank, level)
    decreases |parts| - i
  {
    if i < |parts| {
      assert parts[..i + 1][..i] == parts[..i];
      assert RefsBelow(parts[..i + 1], frags, rank, level) by {
        assert forall k :: 0 <= k < i + 1 ==> parts[..i + 1][k] == parts[k];
      }
      AbortPropagates(parts, i + 1, frags, rank, level);
    } else {
      assert parts[..i] == parts;
    }
  }

  // ---- Properties of assembly ----

  /** Assembly never yields `Err`: the `?` on the recursive call has nothing to pass on. */
  lemma {:induction false} AssemblePartsNeverErr(parts: seq<string>, frags: seq<Fragment>, rank: seq<nat>, level: nat)
    requires Ranked(frags, rank, level) && RefsBelow(parts, frags, rank, level)
    ensures !AssembleParts(parts, frags, rank, level).Err?
    decreases level, 2, |parts|
  {
    if parts != [] {
      var n := |parts| - 1;
      PrefixStep(parts, n, frags, rank, level);
      assert parts[..n + 1] == parts;
      AssemblePartsNeverErr(parts[..n], frags, rank, level);
      ExpandNeverErr(parts[n], frags, rank, level);
    }
  }

  lemma {:induction false} ExpandNeverErr(part: string, frags: seq<Fragment>, rank: seq<nat>, level: nat)
    requires Ranked(frags, rank, level) && RefsBelow([part], frags, rank, level)
    ensures !Expand(part, frags, rank, level).Err?
    decreases level, 1
  {
    if IsReference(part) && ReferenceName(part).Some? {
      var name := ReferenceName(part).value;
      assert Resolve(frags, [part][0]) == FirstNamed(Names(frags), name);
      ExpandNameNeverErr(name, frags, rank, level);
    }
  }

  lemma {:induction false} ExpandNameNeverErr(name: string, frags: seq<Fragment>, rank: seq<nat>, level: nat)
    requires Ranked(frags, rank, level)
    requires FirstNamed(Names(frags), name).Some? ==> rank[FirstNamed(Names(frags), name).value] < level
    ensures !ExpandName(name, frags, rank, level).Err?
    decreases level, 0
  {
    match FirstNamed(Names(frags), name)
    case None =>
    case Some(j) => AssemblePartsNeverErr(frags[j].pattern.parts, frags, rank, rank[j]);
  }

  /** Assembly distributes over concatenation of part lists: each part's expansion, in order. */
  lemma {:induction false} AssembleAppend(p: seq<string>, q: seq<string>, frags: seq<Fragment>, rank: seq<nat>, level: nat)
    requires Ranked(frags, rank, level)
    requires RefsBelow(p, frags, rank, level) && RefsBelow(q, frags, rank, level)
    ensures RefsBelow(p + q, frags, rank, level)
    ensures AssembleParts(p + q, frags, rank, level)
         == Combine(AssembleParts(p, frags, rank, level), AssembleParts(q, frags, rank, level))
    decreases |q|
  {
    RefsBelowAppend(p, q, frags, rank, level);
    var a := AssembleParts(p, frags, rank, level);
    if q == [] {
      assert p + q == p;
      if a.Ok? {
        assert a.value + "" == a.value;
      }
    } else {
      var n := |q| - 1;
      var pq := p + q;
      var m := |p| + n;
      PrefixStep(q, n, frags, rank, level);
      assert q[..n + 1] == q;
      var b := AssembleParts(q[..n], frags, rank, level);
      var c := Expand(q[n], frags, rank, level);
      assert AssembleParts(q, frags, rank, level) == Combine(b, c);
      AssembleAppend(p, q[..n], frags, rank, level);
      PrefixStep(pq, m, frags, rank, level);
      assert pq[..m + 1] == pq;
      assert pq[..m] == p + q[..n];
      assert pq[m] == q[n];
      assert AssembleParts(pq, frags, rank, level) == Combine(Combine(a, b), c);
      CombineAssociative(a, b, c);
    }
  }

  lemma RefsBelowAppend(p: seq<string>, q: seq<string>, frags: seq<Fragment>, rank: seq<nat>, level: nat)
    requires |rank| == |frags|
    requires RefsBelow(p, frags, rank, level) && RefsBelow(q, frags, rank, level)
    ensures RefsBelow(p + q, frags, rank, level)
  {
    forall k | 0 <= k < |p + q|
      ensures PartBelow((p + q)[k], frags, rank, level)
    {
      if k < |p| {
        assert (p + q)[k] == p[k];
      } else {
        assert (p + q)[k] == q[k - |p|];
      }
    }
  }

  lemma CombineAssociative(a: Assembly, b: Assembly, c: Assembly)
    ensures Combine(Combine(a, b), c) == Combine(a, Combine(b, c))
  {
    if a.Ok? && b.Ok? && c.Ok? {
      assert (a.value + b.value) + c.value == a.value + (b.value + c.value);
    }
  }

  /** Parts that are not references are copied verbatim, in order. */
  lemma {:induction false} VerbatimParts(parts: seq<string>, frags: seq<Fragment>, rank: seq<nat>, level: nat)
    requires Ranked(frags, rank, level)
    requires forall k :: 0 <= k < |parts| ==> !IsReference(parts[k])
    ensures RefsBelow(parts, frags, rank, level)
    ensures AssembleParts(parts, frags, rank, level) == Ok(Flatten(parts))
  {
    if parts != [] {
      var n := |parts| - 1;
      assert forall k :: 0 <= k < n ==> parts[..n][k] == parts[k];
      VerbatimParts(parts[..n], frags, rank, level);
      PrefixStep(parts, n, frags, rank, level);
      assert parts[..n + 1] == parts;
    }
  }

  /** When each part expands to some text, the assembly is those texts joined in order. */
  lemma {:induction false} AssembleEach(parts: seq<string>, texts: seq<string>, frags: seq<Fragment>, rank: seq<nat>, level: nat)
    requires Ranked(frags, rank, level) && RefsBelow(parts, frags, rank, level)
    requires |texts| == |parts|
    requires forall k :: 0 <= k < |parts| ==> RefsBelow([parts[k]], frags, rank, level) && Expand(parts[k], frags, rank, level) == Ok(texts[k])
    ensures AssembleParts(parts, frags, rank, level) == Ok(Flatten(texts))
  {
    if parts != [] {
      var n := |parts| - 1;
      PrefixStep(parts, n, frags, rank, level);
      assert parts[..n + 1] == parts;
      forall k | 0 <= k < n
        ensures RefsBelow([parts[..n][k]], frags, rank, level)
        ensures Expand(parts[..n][k], frags, rank, level) == Ok(texts[..n][k])
      {
        assert parts[..n][k] == parts[k] && texts[..n][k] == texts[k];
      }
      AssembleEach(parts[..n], texts[..n], frags, rank, level);
      var sofar := AssembleParts(parts[..n], frags, rank, level);
      var last := Expand(parts[n], frags, rank, level);
      assert sofar == Ok(Flatten(texts[..n]));
      assert last == Ok(texts[n]);
      assert AssembleParts(parts, frags, rank, level) == Combine(sofar, last);
      assert texts[..n] + [texts[n]] == texts;
      FlattenSnoc(texts[..n], texts[n]);
    }
  }

  /** A reference part `@name@` expands as its name does. */
  lemma ExpandReference(name: string, frags: seq<Fragment>, rank: seq<nat>, level: nat)
    requires Ranked(frags, rank, level) && RefsBelow(["@" + name + "@"], frags, rank, level)
    ensures FirstNamed(Names(frags), name).Some? ==> rank[FirstNamed(Names(frags), name).value] < level
    ensures Expand("@" + name + "@", frags, rank, level) == ExpandName(name, frags, rank, level)
  {
    var part := "@" + name + "@";
    assert ReferenceName(part) == Some(name) by {
      assert part[..|part| - 1] == "@" + name;
      assert ("@" + name)[1..] == name;
    }
    assert [part][0] == part;
  }

  /** A reference resolves to the first fragment carrying its name; later namesakes are ignored. */
  lemma FirstMatchWins(name: string, j: nat, frags: seq<Fragment>, rank: seq<nat>, level: nat)
    requires Ranked(frags, rank, level)
    requires j < |frags| && frags[j].name == name && rank[j] < level
    requires forall k :: 0 <= k < j ==> frags[k].name != name
    ensures RefsBelow(["@" + name + "@"], frags, rank, level)
    ensures Ranked(frags, rank, rank[j]) && RefsBelow(frags[j].pattern.parts, frags, rank, rank[j])
    ensures AssembleParts(["@" + name + "@"], frags, rank, level)
         == AssembleParts(frags[j].pattern.parts, frags, rank, rank[j])
  {
    FirstNamedAt(Names(frags), name, j);
    SingleReference(name, frags, rank, level);
  }

  /** A reference to a name no fragment carries contributes the empty string, whatever the catalog holds. */
  lemma UnknownReferenceIsEmpty(name: string, frags: seq<Fragment>, rank: seq<nat>, level: nat)
    requires Ranked(frags, rank, level)
    requires forall k :: 0 <= k < |frags| ==> frags[k].name != name
    ensures RefsBelow(["@" + name + "@"], frags, rank, level)
    ensures AssembleParts(["@" + name + "@"], frags, rank, level) == Ok("")
  {
    SingleReference(name, frags, rank, level);
  }

  /** The lone reference `@name@` assembles as its name does. */
  lemma SingleReference(name: string, frags: seq<Fragment>, rank: seq<nat>, level: nat)
    requires Ranked(frags, rank, level)
    requires FirstNamed(Names(frags), name).Some? ==> rank[FirstNamed(Names(frags), name).value] < level
    ensures RefsBelow(["@" + name + "@"], frags, rank, level)
    ensures AssembleParts(["@" + name + "@"], frags, rank, level) == ExpandName(name, frags, rank, level)
  {
    var part := "@" + name + "@";
    assert ReferenceName(part) == Some(name) by {
      assert part[..|part| - 1] == "@" + name;
      assert ("@" + name)[1..] == name;
    }
    assert Resolve(frags, [part][0]) == FirstNamed(Names(frags), name);
    PrefixStep([part], 0, frags, rank, level);
    assert [part][..1] == [part];
    assert [part][..0] == [];
  }

  /** The part "@" passes the reference test but has no name: `unwrap` panics, and so does the whole assembly. */
  lemma LoneAtPanics(p: seq<string>, q: seq<string>, frags: seq<Fragment>, rank: seq<nat>, level: nat)
    requires Ranked(frags, rank, level) && RefsBelow(p + ["@"] + q, frags, rank, level)
    ensures AssembleParts(p + ["@"] + q, frags, rank, level) == Panic
  {
    var parts := p + ["@"] + q;
    var i := |p|;
    PrefixStep(parts, i, frags, rank, level);
    assert parts[..i] == p;
    assert parts[i] == "@";
    AssemblePartsNeverErr(p, frags, rank, level);
    AbortPropagates(parts, i + 1, frags, rank, level);
  }

  /**
    A catalog may hold a cycle that the pattern never reaches: here "a" refers to
    itself, yet "x" followed by a reference to "b" assembles, since only "b" is ranked.
   */
  lemma UnreachedCycleIgnored()
    ensures Ranked(CYCLIC_CATALOG, [1, 0], 1)
    ensures RefsBelow(["x", "@b@"], CYCLIC_CATALOG, [1, 0], 1)
    ensures AssembleParts(["x", "@b@"], CYCLIC_CATALOG, [1, 0], 1) == Ok("xy")
  {
    var ref := "@" + "b" + "@";
    ReferenceToLeaf();
    VerbatimParts(["x"], CYCLIC_CATALOG, [1, 0], 1);
    assert Flatten(["x"]) == Flatten(["x"][..0]) + "x";
    AssembleAppend(["x"], [ref], CYCLIC_CATALOG, [1, 0], 1);
    assert ["x"] + [ref] == ["x", "@b@"];
  }

  /** In the cyclic catalog, "b" is ranked at 0 and is its second entry; "a" is left unranked. */
  lemma CyclicCatalogRanked()
    ensures Ranked(CYCLIC_CATALOG, [1, 0], 1)
    ensures FirstNamed(Names(CYCLIC_CATALOG), "b") == Some(1)
  {
    assert CYCLIC_CATALOG[1].pattern.parts == ["y"];
    VerbatimParts(["y"], CYCLIC_CATALOG, [1, 0], 0);
    FirstNamedAt(Names(CYCLIC_CATALOG), "b", 1);
  }

  /** The reference to "b" in the cyclic catalog assembles to its text. */
  lemma ReferenceToLeaf()
    ensures Ranked(CYCLIC_CATALOG, [1, 0], 1)
    ensures RefsBelow(["@" + "b" + "@"], CYCLIC_CATALOG, [1, 0], 1)
    ensures AssembleParts(["@" + "b" + "@"], CYCLIC_CATALOG, [1, 0], 1) == Ok("y")
    ensures "@" + "b" + "@" == "@b@"
  {
    var ref := "@" + "b" + "@";
    assert ref == "@b@" by {
      assert |ref| == 3 && ref[0] == '@' && ref[1] == 'b' && ref[2] == '@';
    }
    CyclicCatalogRanked();
    FirstMatchWins("b", 1, CYCLIC_CATALOG, [1, 0], 1);
    assert CYCLIC_CATALOG[1].pattern.parts == ["y"];
    VerbatimParts(["y"], CYCLIC_CATALOG, [1, 0], 0);
    assert Flatten(["y"]) == Flatten(["y"][..0]) + "y";
  }

  /** A catalog whose first fragment refers to itself. */
  const CYCLIC_CATALOG: seq<Fragment> := [Fragment("a", FromStr("@a@"), ""), Fragment("b", FromStr("y"), "")]

  // ---- The serialised shape ----

  /** An element of a serialised sequence: a string, or anything else. */
  datatype Element = StrElement(s: string) | OtherElement

  /** What `serialize` hands the serializer: none, a bare string, or a sequence. */
  datatype Value = NoneValue | StrValue(s: string) | SeqValue(items: seq<Element>)

  /** `impl Serialize for CompositePattern`. */
  function Serialize(p: CompositePattern): (v: Value)
    ensures v.NoneValue? <==> |p.parts| == 0
    ensures v.StrValue? <==> |p.parts| == 1
    ensures v.SeqValue? <==> |p.parts| >= 2
    ensures v.StrValue? ==> v.s == p.parts[0]
    ensures v.SeqValue? ==> |v.items| == |p.parts| && forall k :: 0 <= k < |p.parts| ==> v.items[k] == StrElement(p.parts[k])
  {
    if |p.parts| < 1 then NoneValue
    else if |p.parts| == 1 then StrValue(p.parts[0])
    else SeqValue(seq(|p.parts|, k requires 0 <= k < |p.parts| => StrElement(p.parts[k])))
  }

  /** The strings `visit_seq` collects: the leading string elements, up to the first element that is not one. */
  function LeadingStrings(items: seq<Element>): (ss: seq<string>)
    ensures |ss| <= |items|
    ensures forall k :: 0 <= k < |ss| ==> items[k] == StrElement(ss[k])
    ensures |ss| < |items| ==> items[|ss|].OtherElement?
  {
    if items == [] || items[0].OtherElement? then []
    else [items[0].s] + LeadingStrings(items[1..])
  }

  /** `visit_seq`: push each string element until the next one is not a string (or there is none). */
  method VisitSeq(items: seq<Element>) returns (p: CompositePattern)
    ensures p.parts == LeadingStrings(items)
  {
    var strs: seq<string> := [];
    var k := 0;
    while k < |items| && items[k].StrElement?
      invariant 0 <= k <= |items|
      invariant |strs| == k
      invariant forall m :: 0 <= m < k ==> items[m] == StrElement(strs[m])
    {
      strs := strs + [items[k].s];
      k := k + 1;
    }
    LeadingStringsUnique(items, strs);
    p := FromSlice(strs);
  }

  /** LeadingStrings is the only list of strings that matches the leading string elements and stops where they stop. */
  lemma {:induction false} LeadingStringsUnique(items: seq<Element>, ss: seq<string>)
    requires |ss| <= |items|
    requires forall k :: 0 <= k < |ss| ==> items[k] == StrElement(ss[k])
    requires |ss| < |items| ==> items[|ss|].OtherElement?
    ensures LeadingStrings(items) == ss
  {
    if ss != [] {
      LeadingStringsUnique(items[1..], ss[1..]);
      assert ss == [ss[0]] + ss[1..];
    }
  }

  /** `deserialize_any` with the visitor: a string is one part, a sequence its leading strings; anything else is an error. */
  function Deserialize(v: Value): (r: Option<CompositePattern>)
    ensures r.None? <==> v.NoneValue?
    ensures v.StrValue? ==> r == Some(CompositePattern([v.s]))
    ensures v.SeqValue? ==> r.Some? && |r.value.parts| <= |v.items|
    ensures v.SeqValue? ==> forall k :: 0 <= k < |r.value.parts| ==> v.items[k] == StrElement(r.value.parts[k])
  {
    match v
    case NoneValue => None
    case StrValue(s) => Some(FromStr(s))
    case SeqValue(items) => Some(FromSlice(LeadingStrings(items)))
  }

  /** A pattern with at least one part survives serialisation followed by the visitor; the empty one does not. */
  lemma RoundTrip(p: CompositePattern)
    ensures |p.parts| >= 1 ==> Deserialize(Serialize(p)) == Some(p)
    ensures |p.parts| == 0 ==> Deserialize(Serialize(p)) == None
  {
    if |p.parts| >= 2 {
      var items := Serialize(p).items;
      LeadingStringsUnique(items, p.parts);
    } else if |p.parts| == 1 {
      assert [p.parts[0]] == p.parts;
    }
  }

  /** The visitor keeps the strings of a sequence in order and stops at the first non-string element. */
  lemma DeserializeStopsAtNonString(strs: seq<string>, rest: seq<Element>)
    ensures Deserialize(SeqValue(seq(|strs|, k requires 0 <= k < |strs| => StrElement(strs[k])) + [OtherElement] + rest))
         == Some(FromSlice(strs))
  {
    var items := seq(|strs|, k requires 0 <= k < |strs| => StrElement(strs[k])) + [OtherElement] + rest;
    LeadingStringsUnique(items, strs);
  }
}
