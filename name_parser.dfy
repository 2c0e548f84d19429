/**
  The parsing half of `process_ex`: a SimaPro name
  `RefProduct {Location}| qualifier | code` is cut at every `|` into exactly
  three segments, every leading and trailing `}` is stripped from the first
  segment, and what is left is cut at every `{` into exactly two halves, the
  reference name and the location. Each of the two tuple unpackings raises a
  `ValueError` when the number of pieces is wrong; that is the `Err` case.
*/
module NameParser {
  import opened Wrappers
  import opened Canonicalizer

  datatype ParsedName = ParsedName(refName: string, location: string, suffix: string)

  /** The `ValueError` of an unpacking, with the number of values it got. */
  datatype ParseError =
    | SegmentCount(found: nat)   // `name_loc, suffix, _ = sima_name.split("|")`
    | LocationParts(found: nat)  // `ref_name, loc = name_loc.split("{")`

  /** `s.lstrip(c)`. */
  function StripLeft(s: string, c: char): string
    decreases |s|
  {
    if |s| > 0 && s[0] == c then StripLeft(s[1..], c) else s
  }

  /** `s.rstrip(c)`. */
  function StripRight(s: string, c: char): string
    decreases |s|
  {
    if |s| > 0 && s[|s| - 1] == c then StripRight(s[..|s| - 1], c) else s
  }

  /** `s.strip(c)`: removes every leading and every trailing `c`. */
  function Strip(s: string, c: char): string
  {
    StripRight(StripLeft(s, c), c)
  }

  function ParseName(name: string): Result<ParsedName, ParseError>
  {
    var segments := Split(name, '|');
    if |segments| != 3 then Err(SegmentCount(|segments|))
    else
      var nameLoc := Strip(segments[0], '}');
      var halves := Split(nameLoc, '{');
      if |halves| != 2 then Err(LocationParts(|halves|))
      else Ok(ParsedName(halves[0], halves[1], segments[1]))
  }

  // ---------------------------------------------------------------------------
  // The grammar the parser accepts
  // ---------------------------------------------------------------------------

  function Rep(c: char, k: nat): string
  {
    seq(k, _ => c)
  }

  function Count(s: string, c: char): nat
    decreases |s|
  {
    if |s| == 0 then 0 else (if s[0] == c then 1 else 0) + Count(s[1..], c)
  }

  /** `name` is `k1` braces, the reference name, `{`, the location, `k2` braces, `|`, the suffix, `|`, `tail`. */
  ghost predicate Spells(name: string, p: ParsedName, k1: nat, k2: nat, tail: string)
  {
    name == Rep('}', k1) + p.refName + "{" + p.location + Rep('}', k2) + "|" + p.suffix + "|" + tail
  }

  /**
    What the pieces must look like for the parse to give them back: no `|`
    anywhere, no `{` in the reference name or the location, no `}` at the
    outer ends (the strip would eat it).
  */
  ghost predicate Admissible(p: ParsedName, tail: string)
  {
    && '|' !in p.refName && '|' !in p.location && '|' !in p.suffix && '|' !in tail
    && '{' !in p.refName && '{' !in p.location
    && (p.refName == "" || p.refName[0] != '}')
    && (p.location == "" || p.location[|p.location| - 1] != '}')
  }

  // ---------------------------------------------------------------------------
  // Facts about split and strip
  // ---------------------------------------------------------------------------

  lemma {:induction false} SplitLength(s: string, c: char)
    ensures |Split(s, c)| == Count(s, c) + 1
    decreases |s|
  {
    if |s| > 0 {
      SplitLength(s[1..], c);
    }
  }

  function LeadingCount(s: string, c: char): nat
    decreases |s|
  {
    if |s| > 0 && s[0] == c then 1 + LeadingCount(s[1..], c) else 0
  }

  function TrailingCount(s: string, c: char): nat
    decreases |s|
  {
    if |s| > 0 && s[|s| - 1] == c then 1 + TrailingCount(s[..|s| - 1], c) else 0
  }

  lemma {:induction false} StripLeftSplits(s: string, c: char)
    ensures s == Rep(c, LeadingCount(s, c)) + StripLeft(s, c)
    ensures StripLeft(s, c) == "" || StripLeft(s, c)[0] != c
    decreases |s|
  {
    if |s| > 0 && s[0] == c {
      StripLeftSplits(s[1..], c);
      assert Rep(c, LeadingCount(s, c)) == [c] + Rep(c, LeadingCount(s[1..], c));
    }
  }

  lemma {:induction false} StripRightSplits(s: string, c: char)
    ensures s == StripRight(s, c) + Rep(c, TrailingCount(s, c))
    ensures StripRight(s, c) == "" || StripRight(s, c)[|StripRight(s, c)| - 1] != c
    decreases |s|
  {
    if |s| > 0 && s[|s| - 1] == c {
      StripRightSplits(s[..|s| - 1], c);
      assert Rep(c, TrailingCount(s, c)) == Rep(c, TrailingCount(s[..|s| - 1], c)) + [c];
      assert s == s[..|s| - 1] + [c];
    }
  }

  lemma {:induction false} StripLeftOf(k: nat, m: string, c: char)
    requires m == "" || m[0] != c
    ensures StripLeft(Rep(c, k) + m, c) == m
    decreases k
  {
    if k > 0 {
      assert (Rep(c, k) + m)[1..] == Rep(c, k - 1) + m;
      StripLeftOf(k - 1, m, c);
    } else {
      assert Rep(c, k) + m == m;
    }
  }

  lemma {:induction false} StripRightOf(k: nat, m: string, c: char)
    requires m == "" || m[|m| - 1] != c
    ensures StripRight(m + Rep(c, k), c) == m
    decreases k
  {
    if k > 0 {
      assert (m + Rep(c, k))[..|m| + k - 1] == m + Rep(c, k - 1);
      StripRightOf(k - 1, m, c);
    } else {
      assert m + Rep(c, k) == m;
    }
  }

  // ---------------------------------------------------------------------------
  // Properties of the parser
  // ---------------------------------------------------------------------------

  /** The first unpacking fails exactly when the name does not hold exactly two `|`. */
  lemma SegmentErrorIff(name: string)
    ensures (ParseName(name).Err? && ParseName(name).error.SegmentCount?) <==> Count(name, '|') != 2
    ensures ParseName(name).Err? && ParseName(name).error.SegmentCount? ==>
              ParseName(name).error.found == Count(name, '|') + 1
  {
    SplitLength(name, '|');
  }

  lemma {:induction false} CountConcat(a: string, b: string, c: char)
    ensures Count(a + b, c) == Count(a, c) + Count(b, c)
    decreases |a|
  {
    if |a| == 0 {
      assert a + b == b;
    } else {
      assert (a + b)[1..] == a[1..] + b;
      CountConcat(a[1..], b, c);
    }
  }

  lemma {:induction false} CountAbsent(s: string, c: char)
    requires c !in s
    ensures Count(s, c) == 0
    decreases |s|
  {
    if |s| > 0 {
      assert forall ch :: ch in s[1..] ==> ch in s;
      CountAbsent(s[1..], c);
    }
  }

  /**
    Once the name has exactly two `|`, the second unpacking raises exactly
    when the first segment does not hold exactly one `{` (stripping `}`
    removes no `{`), and reports how many pieces it found.
  */
  lemma LocationErrorIff(name: string)
    ensures (ParseName(name).Err? && ParseName(name).error.LocationParts?) <==>
              Count(name, '|') == 2 && Count(Split(name, '|')[0], '{') != 1
    ensures ParseName(name).Err? && ParseName(name).error.LocationParts? ==>
              ParseName(name).error.found == Count(Split(name, '|')[0], '{') + 1
  {
    SplitLength(name, '|');
    var seg0 := Split(name, '|')[0];
    var k1, k2 := StripShape(seg0, '}');
    var inner := Strip(seg0, '}');
    CountConcat(Rep('}', k1) + inner, Rep('}', k2), '{');
    CountConcat(Rep('}', k1), inner, '{');
    CountAbsent(Rep('}', k1), '{');
    CountAbsent(Rep('}', k2), '{');
    SplitLength(inner, '{');
  }

  /** A name without `|` makes the first unpacking raise with a single value. */
  lemma NoBarIsSegmentError(name: string)
    requires '|' !in name
    ensures ParseName(name) == Err(SegmentCount(1))
  {
    SplitNoSeparator(name, '|');
  }

  lemma StripShape(s: string, c: char) returns (k1: nat, k2: nat)
    ensures s == Rep(c, k1) + Strip(s, c) + Rep(c, k2)
    ensures Strip(s, c) == "" || (Strip(s, c)[0] != c && Strip(s, c)[|Strip(s, c)| - 1] != c)
  {
    var left := StripLeft(s, c);
    StripLeftSplits(s, c);
    StripRightSplits(left, c);
    k1 := LeadingCount(s, c);
    k2 := TrailingCount(left, c);
    assert Strip(s, c) == "" || Strip(s, c)[0] == left[0];
  }

  lemma HalvesShape(s: string, sep: char)
    requires |Split(s, sep)| == 2
    ensures s == Split(s, sep)[0] + [sep] + Split(s, sep)[1]
    ensures sep !in Split(s, sep)[0] && sep !in Split(s, sep)[1]
  {
    var halves := Split(s, sep);
    JoinSplit(s, sep);
    assert halves[1..] == [halves[1]];
    SplitPieces(s, sep);
    assert halves[0] in halves && halves[1] in halves;
  }

  /**
    The first segment, once stripped of braces, cuts at `{` into two halves:
    it is then braces, the first half, `{`, the second half, braces.
  */
  lemma FirstSegmentShape(seg0: string) returns (k1: nat, k2: nat)
    requires |Split(Strip(seg0, '}'), '{')| == 2
    ensures var halves := Split(Strip(seg0, '}'), '{');
      && seg0 == Rep('}', k1) + halves[0] + "{" + halves[1] + Rep('}', k2)
      && '{' !in halves[0] && '{' !in halves[1]
      && (halves[0] == "" || halves[0][0] != '}')
      && (halves[1] == "" || halves[1][|halves[1]| - 1] != '}')
      && (forall ch :: ch in halves[0] || ch in halves[1] ==> ch in seg0)
  {
    var nameLoc := Strip(seg0, '}');
    var halves := Split(nameLoc, '{');
    k1, k2 := StripShape(seg0, '}');
    HalvesShape(nameLoc, '{');
    var h0, h1 := halves[0], halves[1];
    assert nameLoc == h0 + ['{'] + h1;
    assert seg0 == Rep('}', k1) + h0 + "{" + h1 + Rep('}', k2);
    assert h0 == "" || h0[0] == nameLoc[0];
    assert h1 == "" || h1[|h1| - 1] == nameLoc[|nameLoc| - 1];
    assert forall ch :: ch in nameLoc ==> ch in seg0;
  }

  /** Every successful parse reads back a name of the expected shape. */
  lemma ParseNameSound(name: string)
    ensures ParseName(name).Ok? ==>
      exists k1: nat, k2: nat, tail ::
        Admissible(ParseName(name).value, tail) && Spells(name, ParseName(name).value, k1, k2, tail)
  {
    var segments := Split(name, '|');
    if ParseName(name).Ok? {
      var p := ParseName(name).value;
      var seg0 := segments[0];
      var halves := Split(Strip(seg0, '}'), '{');
      assert p == ParsedName(halves[0], halves[1], segments[1]);
      var k1, k2 := FirstSegmentShape(seg0);
      JoinSplit(name, '|');
      JoinThree(segments, '|');
      SplitPieces(name, '|');
      assert seg0 in segments && segments[1] in segments && segments[2] in segments;
      assert Admissible(p, segments[2]);
      assert Spells(name, p, k1, k2, segments[2]);
    }
  }

  lemma SplitTwo(a: string, b: string, sep: char)
    requires sep !in a && sep !in b
    ensures Split(a + [sep] + b, sep) == [a, b]
  {
    SplitConcat(a, b, sep);
    SplitNoSeparator(a, sep);
    SplitNoSeparator(b, sep);
  }

  lemma SplitThree(a: string, b: string, c: string, sep: char)
    requires sep !in a && sep !in b && sep !in c
    ensures Split(a + [sep] + b + [sep] + c, sep) == [a, b, c]
  {
    var bc := b + [sep] + c;
    assert a + [sep] + b + [sep] + c == a + [sep] + bc;
    assert Split(bc, sep) == [b, c] by {
      SplitTwo(b, c, sep);
    }
    assert Split(a, sep) == [a] by {
      SplitNoSeparator(a, sep);
    }
    SplitConcat(a, bc, sep);
    assert [a] + [b, c] == [a, b, c];
  }

  lemma JoinThree(parts: seq<string>, sep: char)
    requires |parts| == 3
    ensures Join(parts, sep) == parts[0] + [sep] + parts[1] + [sep] + parts[2]
  {
    assert parts[1..][1..] == [parts[2]];
    assert Join(parts[1..], sep) == parts[1] + [sep] + parts[2];
    assert Join(parts, sep) == parts[0] + [sep] + (parts[1] + [sep] + parts[2]);
  }

  /** Stripping braces from `k1` braces, `inner`, `k2` braces gives `inner` back. */
  lemma StripBraces(k1: nat, inner: string, k2: nat)
    requires |inner| > 0 && inner[0] != '}' && inner[|inner| - 1] != '}'
    ensures Strip(Rep('}', k1) + inner + Rep('}', k2), '}') == inner
  {
    assert Rep('}', k1) + inner + Rep('}', k2) == Rep('}', k1) + (inner + Rep('}', k2));
    StripLeftOf(k1, inner + Rep('}', k2), '}');
    StripRightOf(k2, inner, '}');
  }

  /** The `|`-segments of a name of the expected shape. */
  lemma SpelledSegments(name: string, p: ParsedName, k1: nat, k2: nat, tail: string)
    requires Admissible(p, tail) && Spells(name, p, k1, k2, tail)
    ensures Split(name, '|') == [Rep('}', k1) + (p.refName + ['{'] + p.location) + Rep('}', k2), p.suffix, tail]
  {
    var first := Rep('}', k1) + (p.refName + ['{'] + p.location) + Rep('}', k2);
    assert name == first + ['|'] + p.suffix + ['|'] + tail;
    assert '|' !in first by {
      assert forall i :: 0 <= i < |first| ==>
        (first[i] == '}' || first[i] == '{' || first[i] in p.refName || first[i] in p.location);
    }
    SplitThree(first, p.suffix, tail, '|');
  }

  /** Stripping `}` from the first segment leaves `refName{location`. */
  lemma StrippedFirst(p: ParsedName, k1: nat, k2: nat, tail: string)
    requires Admissible(p, tail)
    ensures Strip(Rep('}', k1) + (p.refName + ['{'] + p.location) + Rep('}', k2), '}') == p.refName + ['{'] + p.location
  {
    var inner := p.refName + ['{'] + p.location;
    assert inner[|p.refName|] == '{';
    assert inner[|inner| - 1] != '}' by {
      if |p.location| > 0 {
        assert inner[|inner| - 1] == p.location[|p.location| - 1];
      }
    }
    StripBraces(k1, inner, k2);
  }

  /** `ParseName` once its two splits and its strip are known. */
  lemma ParseNameOfPieces(name: string, first: string, inner: string, p: ParsedName, tail: string)
    requires Split(name, '|') == [first, p.suffix, tail]
    requires Strip(first, '}') == inner && Split(inner, '{') == [p.refName, p.location]
    ensures ParseName(name) == Ok(p)
  {
  }

  /** Every name of the expected shape parses into its own pieces. */
  lemma ParseNameComplete(name: string, p: ParsedName, k1: nat, k2: nat, tail: string)
    requires Admissible(p, tail) && Spells(name, p, k1, k2, tail)
    ensures ParseName(name) == Ok(p)
  {
    var inner := p.refName + ['{'] + p.location;
    var first := Rep('}', k1) + inner + Rep('}', k2);
    SpelledSegments(name, p, k1, k2, tail);
    StrippedFirst(p, k1, k2, tail);
    SplitTwo(p.refName, p.location, '{');
    ParseNameOfPieces(name, first, inner, p, tail);
  }

  /** The name `Steel {GLO}| market for steel | Cutoff, U` parses with its whitespace kept. */
  lemma ParseNameExample(refName: string, location: string, suffix: string, tail: string)
    requires refName == "Steel " && location == "GLO" && suffix == " market for steel " && tail == " Cutoff, U"
    ensures ParseName(refName + "{" + location + "}|" + suffix + "|" + tail)
         == Ok(ParsedName(refName, location, suffix))
  {
    var p := ParsedName(refName, location, suffix);
    var name := refName + "{" + location + "}|" + suffix + "|" + tail;
    assert Admissible(p, tail);
    assert Spells(name, p, 0, 1, tail) by {
      assert Rep('}', 0) == "" && Rep('}', 1) == "}";
    }
    ParseNameComplete(name, p, 0, 1, tail);
  }
}
