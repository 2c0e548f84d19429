/**
  The bag-of-words normaliser `canonic` shared by both copies of the matching
  script: lower-case the text (ASCII only), turn every comma into a space,
  split on single spaces, drop the empty pieces, keep each word once, sort
  the words and join them with single spaces.

  Python builds a `set` of words and sorts it; the model inserts the words one
  by one into a strictly sorted sequence, which gives the same string because a
  finite set has exactly one strictly sorted enumeration (`SortedIsUnique`).
*/
module Canonicalizer {

  // ---------------------------------------------------------------------------
  // Character-level steps: `val.lower()` and `.replace(",", " ")`
  // ---------------------------------------------------------------------------

  predicate IsUpper(c: char) { 'A' <= c <= 'Z' }

  /** ASCII case fold; every other character is left alone. */
  function LowerChar(c: char): char
  {
    if IsUpper(c) then (c as int + 32) as char else c
  }

  function Lower(s: string): string
  {
    seq(|s|, i requires 0 <= i < |s| => LowerChar(s[i]))
  }

  function CommasToSpaces(s: string): string
  {
    seq(|s|, i requires 0 <= i < |s| => if s[i] == ',' then ' ' else s[i])
  }

  /** The text that is split into words. */
  function Normalized(s: string): string
  {
    CommasToSpaces(Lower(s))
  }

  // ---------------------------------------------------------------------------
  // `str.split(sep)` and `sep.join(parts)` for a one-character separator
  // ---------------------------------------------------------------------------

  /**
    Python's `s.split(sep)`: cuts at every occurrence of `sep`, so two
    adjacent separators give an empty piece and "" gives [""].
  */
  function Split(s: string, sep: char): (parts: seq<string>)
    ensures |parts| >= 1
    decreases |s|
  {
    if |s| == 0 then [""]
    else
      var rest := Split(s[1..], sep);
      if s[0] == sep then [""] + rest
      else [[s[0]] + rest[0]] + rest[1..]
  }

  function Join(parts: seq<string>, sep: char): string
    decreases |parts|
  {
    if |parts| == 0 then ""
    else if |parts| == 1 then parts[0]
    else parts[0] + [sep] + Join(parts[1..], sep)
  }

  /** The comprehension `word for word in ... if word != ""`. */
  function NonEmpty(parts: seq<string>): seq<string>
    decreases |parts|
  {
    if |parts| == 0 then []
    else (if parts[0] == "" then [] else [parts[0]]) + NonEmpty(parts[1..])
  }

  /** The words of `s`, in input order and with repetitions. */
  function Words(s: string): seq<string>
  {
    NonEmpty(Split(Normalized(s), ' '))
  }

  function Elems(ws: seq<string>): set<string>
  {
    set w | w in ws
  }

  /** The word set Python builds with `set(...)`. */
  function WordSet(s: string): set<string>
  {
    Elems(Words(s))
  }

  // ---------------------------------------------------------------------------
  // `sorted(...)` on strings: lexicographic order on characters
  // ---------------------------------------------------------------------------

  /** Strict lexicographic order; a proper prefix comes first. */
  predicate Below(a: string, b: string)
    decreases |a|
  {
    |b| > 0 && (|a| == 0 || a[0] < b[0] || (a[0] == b[0] && Below(a[1..], b[1..])))
  }

  /** Sorted and free of duplicates. */
  predicate StrictlySorted(ws: seq<string>)
  {
    forall i, j :: 0 <= i < j < |ws| ==> Below(ws[i], ws[j])
  }

  /** Inserts `w` into a strictly sorted sequence unless it is already there. */
  function Insert(ws: seq<string>, w: string): seq<string>
    decreases |ws|
  {
    if |ws| == 0 then [w]
    else if w == ws[0] then ws
    else if Below(w, ws[0]) then [w] + ws
    else [ws[0]] + Insert(ws[1..], w)
  }

  /** `sorted(set(ws))`. */
  function SortUnique(ws: seq<string>): seq<string>
    decreases |ws|
  {
    if |ws| == 0 then [] else Insert(SortUnique(ws[1..]), ws[0])
  }

  /** `canonic(val)` of both copies of the matching script. */
  function Canonic(s: string): string
  {
    Join(SortUnique(Words(s)), ' ')
  }

  // ---------------------------------------------------------------------------
  // The order is a strict total order
  // ---------------------------------------------------------------------------

  lemma {:induction false} BelowIrreflexive(a: string)
    ensures !Below(a, a)
    decreases |a|
  {
    if |a| > 0 {
      BelowIrreflexive(a[1..]);
    }
  }

  lemma {:induction false} BelowTransitive(a: string, b: string, c: string)
    requires Below(a, b) && Below(b, c)
    ensures Below(a, c)
    decreases |a|
  {
    if |a| > 0 && a[0] == b[0] && b[0] == c[0] {
      BelowTransitive(a[1..], b[1..], c[1..]);
    }
  }

  lemma {:induction false} BelowTotal(a: string, b: string)
    requires a != b
    ensures Below(a, b) || Below(b, a)
    decreases |a|
  {
    if |a| > 0 && |b| > 0 && a[0] == b[0] {
      assert a == [a[0]] + a[1..] && b == [b[0]] + b[1..];
      BelowTotal(a[1..], b[1..]);
    }
  }

  lemma {:induction false} BelowAsymmetric(a: string, b: string)
    ensures Below(a, b) ==> !Below(b, a)
    decreases |a|
  {
    if |a| > 0 && |b| > 0 && a[0] == b[0] {
      BelowAsymmetric(a[1..], b[1..]);
    }
  }

  // ---------------------------------------------------------------------------
  // Sorting with duplicates removed
  // ---------------------------------------------------------------------------

  /** A word below every word of a sorted list can go in front of it. */
  lemma ConsSorted(w: string, ws: seq<string>)
    requires StrictlySorted(ws)
    requires forall x :: x in ws ==> Below(w, x)
    ensures StrictlySorted([w] + ws)
  {
    var r := [w] + ws;
    forall i, j | 0 <= i < j < |r| ensures Below(r[i], r[j]) {
      assert r[j] == ws[j - 1];
      if i == 0 {
        assert ws[j - 1] in ws;
      } else {
        assert r[i] == ws[i - 1];
      }
    }
  }

  lemma ElemsCons(x: string, ws: seq<string>)
    ensures Elems([x] + ws) == {x} + Elems(ws)
  {
    assert forall y :: y in [x] + ws <==> y == x || y in ws;
  }

  /** A word below the head of a sorted list can go in front of it. */
  lemma InsertFront(ws: seq<string>, w: string)
    requires StrictlySorted(ws) && |ws| > 0 && Below(w, ws[0])
    ensures StrictlySorted([w] + ws)
  {
    forall x | x in ws ensures Below(w, x) {
      if x != ws[0] {
        SortedFirstIsLeast(ws, x);
        BelowTransitive(w, ws[0], x);
      }
    }
    ConsSorted(w, ws);
  }

  /** The head of a sorted list stays in front when a larger word goes into its tail. */
  lemma InsertBehind(ws: seq<string>, w: string, tail: seq<string>)
    requires StrictlySorted(ws) && |ws| > 0 && Below(ws[0], w)
    requires StrictlySorted(tail) && Elems(tail) == Elems(ws[1..]) + {w}
    ensures StrictlySorted([ws[0]] + tail)
  {
    forall x | x in tail ensures Below(ws[0], x) {
      assert x in Elems(tail);
      if x != w {
        var k :| 0 <= k < |ws[1..]| && ws[1..][k] == x;
        assert ws[k + 1] == x;
      }
    }
    ConsSorted(ws[0], tail);
  }

  lemma {:induction false} InsertSorted(ws: seq<string>, w: string)
    requires StrictlySorted(ws)
    ensures StrictlySorted(Insert(ws, w))
    ensures Elems(Insert(ws, w)) == Elems(ws) + {w}
    decreases |ws|
  {
    if |ws| == 0 {
    } else if w == ws[0] {
    } else if Below(w, ws[0]) {
      InsertFront(ws, w);
    } else {
      BelowTotal(w, ws[0]);
      InsertSorted(ws[1..], w);
      InsertBehind(ws, w, Insert(ws[1..], w));
      ElemsCons(ws[0], Insert(ws[1..], w));
      ElemsCons(ws[0], ws[1..]);
      assert ws == [ws[0]] + ws[1..];
    }
  }

  lemma {:induction false} SortUniqueSpec(ws: seq<string>)
    ensures StrictlySorted(SortUnique(ws))
    ensures Elems(SortUnique(ws)) == Elems(ws)
    decreases |ws|
  {
    if |ws| > 0 {
      SortUniqueSpec(ws[1..]);
      InsertSorted(SortUnique(ws[1..]), ws[0]);
      assert ws == [ws[0]] + ws[1..];
    }
  }

  /** A finite set of words has one strictly sorted enumeration. */
  lemma {:induction false} SortedIsUnique(a: seq<string>, b: seq<string>)
    requires StrictlySorted(a) && StrictlySorted(b)
    requires Elems(a) == Elems(b)
    ensures a == b
    decreases |a|
  {
    if |a| == 0 {
      NoElemsIsEmpty(b);
    } else {
      assert a[0] in Elems(b);
      assert b[0] in Elems(a);
      SortedFirstIsLeast(a, b[0]);
      SortedFirstIsLeast(b, a[0]);
      BelowAsymmetric(a[0], b[0]);
      assert a[0] == b[0];
      FirstNotInRest(a);
      FirstNotInRest(b);
      assert Elems(a) == {a[0]} + Elems(a[1..]);
      assert Elems(b) == {b[0]} + Elems(b[1..]);
      SortedIsUnique(a[1..], b[1..]);
    }
  }

  lemma NoElemsIsEmpty(b: seq<string>)
    ensures Elems(b) == {} ==> b == []
  {
    if |b| > 0 {
      assert b[0] in Elems(b);
    }
  }

  /** The first element of a strictly sorted sequence is below every other element. */
  lemma SortedFirstIsLeast(a: seq<string>, x: string)
    requires StrictlySorted(a) && |a| > 0
    ensures x in Elems(a) && x != a[0] ==> Below(a[0], x)
  {
  }

  lemma FirstNotInRest(a: seq<string>)
    requires StrictlySorted(a) && |a| > 0
    ensures a[0] !in Elems(a[1..])
  {
    if a[0] in Elems(a[1..]) {
      var j :| 1 <= j < |a| && a[j] == a[0];
      BelowIrreflexive(a[0]);
    }
  }

  lemma SortUniqueOfSorted(ws: seq<string>)
    requires StrictlySorted(ws)
    ensures SortUnique(ws) == ws
  {
    SortUniqueSpec(ws);
    SortedIsUnique(SortUnique(ws), ws);
  }

  // ---------------------------------------------------------------------------
  // Splitting and joining
  // ---------------------------------------------------------------------------

  lemma {:induction false} SplitNoSeparator(s: string, sep: char)
    requires sep !in s
    ensures Split(s, sep) == [s]
    decreases |s|
  {
    if |s| > 0 {
      SplitNoSeparator(s[1..], sep);
      assert s == [s[0]] + s[1..];
    }
  }

  lemma {:induction false} SplitConcat(a: string, b: string, sep: char)
    ensures Split(a + [sep] + b, sep) == Split(a, sep) + Split(b, sep)
    decreases |a|
  {
    if |a| == 0 {
      assert a + [sep] + b == [sep] + b;
      assert ([sep] + b)[1..] == b;
    } else {
      assert (a + [sep] + b)[1..] == a[1..] + [sep] + b;
      SplitConcat(a[1..], b, sep);
    }
  }

  /** Every piece of a split is free of the separator and made of characters of the input. */
  lemma {:induction false} SplitPieces(s: string, sep: char)
    ensures forall k, i :: 0 <= k < |Split(s, sep)| && 0 <= i < |Split(s, sep)[k]| ==>
              Split(s, sep)[k][i] != sep && Split(s, sep)[k][i] in s
    decreases |s|
  {
    if |s| > 0 {
      SplitPieces(s[1..], sep);
    }
  }

  lemma {:induction false} JoinSplit(s: string, sep: char)
    ensures Join(Split(s, sep), sep) == s
    decreases |s|
  {
    if |s| > 0 {
      var rest := Split(s[1..], sep);
      JoinSplit(s[1..], sep);
      if s[0] == sep {
        assert s == [sep] + s[1..];
      } else if |rest| == 1 {
        assert s == [s[0]] + s[1..];
      } else {
        assert rest == [rest[0]] + rest[1..];
        assert Join(rest, sep) == rest[0] + [sep] + Join(rest[1..], sep);
        assert s == [s[0]] + s[1..];
      }
    }
  }

  lemma {:induction false} SplitJoin(ws: seq<string>, sep: char)
    requires |ws| >= 1
    requires forall w :: w in ws ==> sep !in w
    ensures Split(Join(ws, sep), sep) == ws
    decreases |ws|
  {
    if |ws| == 1 {
      SplitNoSeparator(ws[0], sep);
    } else {
      SplitJoin(ws[1..], sep);
      SplitConcat(ws[0], Join(ws[1..], sep), sep);
      SplitNoSeparator(ws[0], sep);
      assert ws == [ws[0]] + ws[1..];
    }
  }

  lemma {:induction false} JoinChars(ws: seq<string>, sep: char)
    ensures forall i :: 0 <= i < |Join(ws, sep)| ==>
              Join(ws, sep)[i] == sep || exists w :: w in ws && Join(ws, sep)[i] in w
    decreases |ws|
  {
    if |ws| == 1 {
      assert ws[0] in ws;
    } else if |ws| > 1 {
      JoinChars(ws[1..], sep);
      var r := Join(ws, sep);
      var first := ws[0] + [sep];
      forall i | 0 <= i < |r|
        ensures r[i] == sep || exists w :: w in ws && r[i] in w
      {
        assert r == ws[0] + [sep] + Join(ws[1..], sep);
        if i < |ws[0]| {
          assert r[i] == ws[0][i] && ws[0] in ws;
        } else if i == |ws[0]| {
          assert r[i] == sep;
        } else {
          assert r[i] == Join(ws[1..], sep)[i - |first|];
          if r[i] != sep {
            var w :| w in ws[1..] && r[i] in w;
            assert w in ws;
          }
        }
      }
    }
  }

  lemma {:induction false} NonEmptyConcat(a: seq<string>, b: seq<string>)
    ensures NonEmpty(a + b) == NonEmpty(a) + NonEmpty(b)
    decreases |a|
  {
    if |a| == 0 {
      assert a + b == b;
    } else {
      assert (a + b)[0] == a[0];
      assert (a + b)[1..] == a[1..] + b;
      NonEmptyConcat(a[1..], b);
    }
  }

  lemma {:induction false} NonEmptyKeepsWords(ws: seq<string>)
    requires forall w :: w in ws ==> w != ""
    ensures NonEmpty(ws) == ws
    decreases |ws|
  {
    if |ws| > 0 {
      assert forall w :: w in ws[1..] ==> w in ws;
      assert ws[0] in ws;
      NonEmptyKeepsWords(ws[1..]);
      assert ws == [ws[0]] + ws[1..];
    }
  }

  lemma {:induction false} NonEmptyDropsEmpty(ws: seq<string>)
    ensures forall w :: w in NonEmpty(ws) ==> w in ws && w != ""
    decreases |ws|
  {
    if |ws| > 0 {
      NonEmptyDropsEmpty(ws[1..]);
    }
  }

  // ---------------------------------------------------------------------------
  // Words and the shape of a canonical string
  // ---------------------------------------------------------------------------

  /** A word of a canonical string: non-empty, no space, no comma, no upper case. */
  predicate IsWord(w: string)
  {
    |w| > 0 && forall i :: 0 <= i < |w| ==> w[i] != ' ' && w[i] != ',' && !IsUpper(w[i])
  }

  lemma WordsAreWords(s: string)
    ensures forall w :: w in Words(s) ==> IsWord(w)
  {
    var n := Normalized(s);
    SplitPieces(n, ' ');
    NonEmptyDropsEmpty(Split(n, ' '));
    forall w | w in Words(s) ensures IsWord(w) {
      var k :| 0 <= k < |Split(n, ' ')| && Split(n, ' ')[k] == w;
      forall i | 0 <= i < |w| ensures w[i] != ' ' && w[i] != ',' && !IsUpper(w[i]) {
        var j :| 0 <= j < |n| && n[j] == w[i];
      }
    }
  }

  lemma NormalizedKeepsWordChars(t: string)
    requires forall i :: 0 <= i < |t| ==> t[i] != ',' && !IsUpper(t[i])
    ensures Normalized(t) == t
  {
  }

  /** The words of `canonic(x)` are the sorted, duplicate-free words of `x`. */
  lemma CanonicWords(s: string)
    ensures Words(Canonic(s)) == SortUnique(Words(s))
  {
    var ws := SortUnique(Words(s));
    SortUniqueSpec(Words(s));
    WordsAreWords(s);
    assert forall w :: w in ws ==> IsWord(w) by {
      forall w | w in ws ensures IsWord(w) {
        assert w in Elems(ws);
      }
    }
    var r := Join(ws, ' ');
    if |ws| == 0 {
      assert Normalized("") == "";
    } else {
      JoinChars(ws, ' ');
      forall i | 0 <= i < |r| ensures r[i] != ',' && !IsUpper(r[i]) {
        if r[i] != ' ' {
          var w :| w in ws && r[i] in w;
          assert IsWord(w);
        }
      }
      NormalizedKeepsWordChars(r);
      SplitJoin(ws, ' ');
      NonEmptyKeepsWords(ws);
    }
  }

  // ---------------------------------------------------------------------------
  // Properties of canonic
  // ---------------------------------------------------------------------------

  /**
    The output of `canonic` is lower case, has no comma, is its own words
    joined by single spaces (so no empty word, no leading, trailing or doubled
    space), its words are sorted without repetition, and they are exactly the
    words of the input.
  */
  lemma CanonicShape(s: string)
    ensures var r := Canonic(s);
      && (forall i :: 0 <= i < |r| ==> r[i] != ',' && !IsUpper(r[i]))
      && r == Join(Words(r), ' ')
      && StrictlySorted(Words(r))
      && (forall w :: w in Words(r) ==> IsWord(w))
      && WordSet(r) == WordSet(s)
  {
    var r := Canonic(s);
    CanonicWords(s);
    SortUniqueSpec(Words(s));
    WordsAreWords(r);
    JoinChars(Words(r), ' ');
    forall i | 0 <= i < |r| ensures r[i] != ',' && !IsUpper(r[i]) {
      if r[i] != ' ' {
        var w :| w in Words(r) && r[i] in w;
        assert IsWord(w);
      }
    }
  }

  /** `canonic(canonic(x)) == canonic(x)`. */
  lemma CanonicIdempotent(s: string)
    ensures Canonic(Canonic(s)) == Canonic(s)
  {
    CanonicWords(s);
    SortUniqueSpec(Words(s));
    SortUniqueOfSorted(SortUnique(Words(s)));
  }

  /** Two texts have the same canonical form exactly when they have the same set of words. */
  lemma CanonicEqualIff(a: string, b: string)
    ensures Canonic(a) == Canonic(b) <==> WordSet(a) == WordSet(b)
  {
    SortUniqueSpec(Words(a));
    SortUniqueSpec(Words(b));
    if WordSet(a) == WordSet(b) {
      SortedIsUnique(SortUnique(Words(a)), SortUnique(Words(b)));
    }
    if Canonic(a) == Canonic(b) {
      CanonicWords(a);
      CanonicWords(b);
    }
  }

  lemma NormalizedConcat(a: string, b: string)
    ensures Normalized(a + b) == Normalized(a) + Normalized(b)
  {
  }

  /** Words of `a + " " + b` are the words of `a` followed by those of `b`. */
  lemma WordsAroundSpace(a: string, b: string)
    ensures Words(a + " " + b) == Words(a) + Words(b)
  {
    NormalizedConcat(a + " ", b);
    NormalizedConcat(a, " ");
    assert Normalized(" ") == " ";
    SplitConcat(Normalized(a), Normalized(b), ' ');
    NonEmptyConcat(Split(Normalized(a), ' '), Split(Normalized(b), ' '));
  }

  /** Texts that differ only in letter case have the same canonical form. */
  lemma CanonicIgnoresCase(a: string, b: string)
    requires Lower(a) == Lower(b)
    ensures Canonic(a) == Canonic(b)
  {
  }

  /** Commas and spaces are interchangeable separators. */
  lemma CanonicCommaIsSpace(a: string, b: string)
    requires CommasToSpaces(a) == CommasToSpaces(b)
    ensures Canonic(a) == Canonic(b)
  {
    assert Normalized(a) == Normalized(b) by {
      forall i | 0 <= i < |a| ensures Normalized(a)[i] == Normalized(b)[i] {
        assert CommasToSpaces(a)[i] == CommasToSpaces(b)[i];
      }
    }
  }

  /** Word order does not matter. */
  lemma CanonicIgnoresWordOrder(a: string, b: string)
    ensures Canonic(a + " " + b) == Canonic(b + " " + a)
  {
    WordsAroundSpace(a, b);
    WordsAroundSpace(b, a);
    CanonicEqualIff(a + " " + b, b + " " + a);
  }

  /** Repeating the words of a text does not change its canonical form. */
  lemma CanonicIgnoresRepetition(a: string)
    ensures Canonic(a + " " + a) == Canonic(a)
  {
    WordsAroundSpace(a, a);
    CanonicEqualIff(a + " " + a, a);
  }

  /** A run of two spaces separates words like one space. */
  lemma CanonicIgnoresSpaceRuns(a: string, b: string)
    ensures Canonic(a + "  " + b) == Canonic(a + " " + b)
  {
    assert a + "  " + b == a + " " + (" " + b);
    WordsAroundSpace(a, " " + b);
    WordsAroundSpace("", b);
    assert "" + " " + b == " " + b;
    assert Words("") == [] by {
      assert Normalized("") == "";
    }
    assert Words(" " + b) == Words(b);
    assert Words(a + " " + (" " + b)) == Words(a) + Words(b);
    WordsAroundSpace(a, b);
    assert Words(a + "  " + b) == Words(a + " " + b);
  }

  /** A text with no space and no comma is one word, lower-cased. */
  lemma WordsOfWord(w: string)
    requires |w| > 0 && ' ' !in w && ',' !in w
    ensures Words(w) == [Lower(w)]
  {
    assert ' ' !in Lower(w) && ',' !in Lower(w) by {
      forall i | 0 <= i < |w| ensures Lower(w)[i] != ' ' && Lower(w)[i] != ',' {
        assert w[i] in w;
      }
    }
    assert Normalized(w) == Lower(w);
    SplitNoSeparator(Lower(w), ' ');
    assert Lower(w) != "";
    NonEmptyKeepsWords([Lower(w)]);
  }

  /** The empty text has no words (the one empty piece is dropped). */
  lemma WordsEmpty()
    ensures Words("") == []
  {
    assert Normalized("") == "";
  }

  /** Leading and trailing spaces add no word. */
  lemma WordsSpaceBefore(b: string)
    ensures Words(" " + b) == Words(b)
  {
    WordsAroundSpace("", b);
    WordsEmpty();
    assert "" + " " + b == " " + b;
  }

  lemma WordsSpaceAfter(a: string)
    ensures Words(a + " ") == Words(a)
  {
    WordsAroundSpace(a, "");
    WordsEmpty();
    assert a + " " + "" == a + " ";
  }
}
