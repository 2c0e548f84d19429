/*
  A worked example: the exchange "Steel {GLO}| market for steel | Cutoff, U"
  (unit kg) against a database holding the single activity
  "market for steel" (reference product "steel", location RoW, unit kg).
  String constants are passed as parameters pinned by `requires`, so that the
  verifier reasons about words rather than unfolding every character.
*/
module Example {
  import opened Canonicalizer
  import opened Wrappers
  import opened Inventory
  import opened Selector
  import opened NameParser
  import opened Matcher

  /** The words of the lookup text and of the activity name. */
  lemma ExampleWords(market: string, forWord: string, steel: string, upperSteel: string)
    requires market == "market" && forWord == "for" && steel == "steel" && upperSteel == "Steel"
    ensures Words((upperSteel + " ") + " " + (" " + market + " " + forWord + " " + steel + " ")) == [steel, market, forWord, steel]
    ensures Words(market + " " + forWord + " " + steel) == [market, forWord, steel]
    ensures Words(upperSteel + " ") == Words(steel)
  {
    assert Lower(upperSteel) == steel;
    assert Lower(market) == market && Lower(forWord) == forWord && Lower(steel) == steel;
    var tail := market + " " + forWord + " " + steel;
    assert Words(upperSteel + " ") == [steel] by {
      WordsOfWord(upperSteel);
      WordsSpaceAfter(upperSteel);
    }
    assert Words(tail) == [market, forWord, steel] by {
      WordsOfWord(market); WordsOfWord(forWord); WordsOfWord(steel);
      WordsAroundSpace(market, forWord);
      WordsAroundSpace(market + " " + forWord, steel);
    }
    assert Words(steel) == [steel] by {
      WordsOfWord(steel);
    }
    assert Words(" " + (tail + " ")) == Words(tail) by {
      WordsSpaceAfter(tail);
      WordsSpaceBefore(tail + " ");
    }
    assert " " + market + " " + forWord + " " + steel + " " == " " + (tail + " ");
    WordsAroundSpace(upperSteel + " ", " " + (tail + " "));
  }

  /** The first lookup text and the activity name have the same canonical form, and so do the reference name and the reference product. */
  lemma ExampleKeys(refName: string, suffix: string, name: string, upperSteel: string, market: string, forWord: string, steel: string)
    requires upperSteel == "Steel" && market == "market" && forWord == "for" && steel == "steel"
    requires refName == "Steel " && suffix == " market for steel "
    requires name == market + " " + forWord + " " + steel
    ensures Canonic(refName + " " + suffix) == Canonic(name)
    ensures Canonic(steel) == Canonic(refName)
  {
    ExampleWords(market, forWord, steel, upperSteel);
    assert refName + " " + suffix == (upperSteel + " ") + " " + (" " + market + " " + forWord + " " + steel + " ");
    assert refName == upperSteel + " ";
    assert WordSet(refName + " " + suffix) == WordSet(name);
    CanonicEqualIff(refName + " " + suffix, name);
  }

  /** The whole run: the exchange is matched to the activity, keyed by its own name. */
  lemma EndToEnd(refName: string, loc: string, suffix: string, tail: string,
                 upperSteel: string, market: string, forWord: string, steel: string,
                 ex: Exchange, act: Activity)
    requires upperSteel == "Steel" && market == "market" && forWord == "for" && steel == "steel"
    requires refName == "Steel " && loc == "GLO" && suffix == " market for steel " && tail == " Cutoff, U"
    requires ex == Exchange(refName + "{" + loc + "}|" + suffix + "|" + tail, "kg", "technosphere")
    requires act == Activity(market + " " + forWord + " " + steel, steel, "RoW", "kg")
    ensures MatchAll([ex], [act]) == Ok(map[ex.name := EntryOf(act)])
  {
    var p := ParsedName(refName, loc, suffix);
    ParseNameExample(refName, loc, suffix, tail);
    IndexOfOne(act);
    ExampleKeys(refName, suffix, act.name, upperSteel, market, forWord, steel);
    assert Fits(act, loc, refName);
    ResolveFirstKey(ex, IndexOf([act]), p, act);
    assert '|' in ex.name by { assert ex.name[|refName| + 5] == '|'; }
    MatchOne(ex, [act], act);
  }

  /** "Steel, low-alloyed" and "low-alloyed steel" canonicalise alike; so do "Steel Steel" and "Steel". */
  lemma CanonicExample(upperSteel: string, lowAlloyed: string, steel: string)
    requires upperSteel == "Steel" && lowAlloyed == "low-alloyed" && steel == "steel"
    ensures Canonic(upperSteel + ", " + lowAlloyed) == Canonic(lowAlloyed + " " + steel)
    ensures Canonic(upperSteel + " " + upperSteel) == Canonic(upperSteel)
  {
    assert CommasToSpaces(upperSteel + ", " + lowAlloyed) == CommasToSpaces(upperSteel + "  " + lowAlloyed);
    CanonicCommaIsSpace(upperSteel + ", " + lowAlloyed, upperSteel + "  " + lowAlloyed);
    CanonicIgnoresSpaceRuns(upperSteel, lowAlloyed);
    CanonicIgnoresWordOrder(upperSteel, lowAlloyed);
    assert Lower(lowAlloyed + " " + upperSteel) == Lower(lowAlloyed + " " + steel);
    CanonicIgnoresCase(lowAlloyed + " " + upperSteel, lowAlloyed + " " + steel);
    CanonicIgnoresRepetition(upperSteel);
  }

  /** Of two steel activities in DE and FR, looking for steel in DE picks the DE one. */
  lemma SelectorExample(steel: string, de: Activity, fr: Activity)
    requires steel == "steel"
    requires de == Activity("steel production", steel, "DE", "kg")
    requires fr == Activity("steel production", steel, "FR", "kg")
    ensures SelectAct({de, fr}, "kg", "DE", steel) == Unique(de, false)
    ensures !SameLoc("DE", "GLO") && SameLoc("DE", "DE")
  {
    assert Fits(de, "DE", steel);
    assert !Fits(fr, "DE", steel) by {
      assert "DE" != "FR" && "DE" !in GloLocs;
    }
    assert IsOnlyFit({de, fr}, "DE", steel, de);
    SelectActReturnsOnlyFit({de, fr}, "kg", "DE", steel, de);
    assert "DE" !in GloLocs;
  }
}
