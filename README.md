# SimaPro to ecoinvent name matcher, modelled in Dafny

The matching script takes the exchanges that a SimaPro CSV import into
Brightway could not link and looks for the ecoinvent activity each one
means. It reads the SimaPro name convention
`reference product {location}| activity name | Cutoff, U`. Each name is
reduced to a canonical key: lower-cased, commas turned into spaces, split
into words, deduplicated and sorted, joined with single spaces. Up to three
keys are looked up in an index of ecoinvent activities keyed the same way.
A bucket that is found is filtered by location (GLO and RoW count as the
same) and by canonical reference product. The resulting migration map
takes each SimaPro name to the name, reference product, location and unit
of its activity.

The project models both copies of the script:

- `canonic.dfy` (module `Canonicalizer`): `canonic`, built from Python's
  `lower`, `replace(",", " ")`, `split(" ")` (empty pieces included),
  `set`, `sorted` and `" ".join`. `sorted(set(...))` is modelled by an
  insertion that drops duplicates. It is proved to be the one strictly
  sorted enumeration of the word set.
- `selector.dfy` (module `Selector`): `GLO_LOCS`, `same_loc` and
  `select_act`. The three outcomes of `select_act` are a `Selection`:
  `Unique` (with the unit-mismatch warning as a flag), `TooMany` and
  `NotFound`. The last two are the two ways it falls off the end and
  returns `None`.
- `name_parser.dfy` (module `NameParser`): the two tuple unpackings and the
  `strip("}")` at the head of `process_ex`. A wrong number of pieces is the
  `ValueError` the source raises, returned as a `ParseError`.
- `matcher.dfy` (module `Matcher`): the called copy's `process_ex`, a
  method with the three-key loop and early return; the index build, a
  method filling a map of sets; and `match_simapro_eco`, a method with the
  exchange loop, proved against recursive specification functions.
- `legacy_matcher.dfy` (module `LegacyMatcher`): the older copy's
  `process_ex`.
- `example.dfy` (module `Example`): worked examples of the canonical form,
  the selector, and one whole matching run.
- `inventory.dfy`, `wrappers.dfy`: the records (exchange, activity,
  migration entry) and `Option`/`Result`.

The definitions of `GLO_LOCS`, `canonic`, `same_loc`, `format_acts` and
`select_act` (lines 3-52) are the same text in the two copies. They are
modelled once, and the rows below cite the called copy
`Raphael_jolivet_matching_script_annotatedAM.py` for them.

Points where the code behaves differently than its names suggest:

- `strip("}")` removes every `}` at both ends of the first segment, not
  one trailing `}`.
- A first segment with more than one `{` raises like one with none.
- A technosphere exchange whose name does not unpack into three
  `|`-segments, or whose first segment does not unpack into two
  `{`-halves, raises `ValueError` out of `match_simapro_eco`. It is not
  recorded as irregular. Only a name with no `|` at all is recorded (line
  95). Such a name is then also never passed to the parser.
- An exchange of any other type whose name contains `|` is skipped
  silently, however malformed its name (line 100). It is neither recorded
  as irregular nor matched.
- An exchange whose keys all miss, or whose selection is empty or
  ambiguous, raises `TypeError` when the `None` result is unpacked (line
  101) or indexed (line 103). The whole run then ends. Nothing skips the
  exchange and carries on. `Matcher.Failure` names the three exceptions,
  and `MatchAll` returns the first one met.
- `list_irregular_exc` and `counter` are built but never returned. They are
  ghost out-parameters of `MatchSimaproEco`.

## Model

| member | source | states |
|---|---|---|
| Canonicalizer.SortUniqueSpec | Raphael_jolivet_matching_script_annotatedAM.py:9-10 | the deduplicating sort gives a strictly increasing list holding exactly the words it was given, as `sorted(set(words))` does |
| Canonicalizer.SortedIsUnique | Raphael_jolivet_matching_script_annotatedAM.py:9-10 | two strictly sorted word lists with the same elements are equal, so the model's sort is the only possible result of `sorted(set(...))` |
| Canonicalizer.WordsAroundSpace | Raphael_jolivet_matching_script_annotatedAM.py:8-9 | the non-empty words of `a + " " + b` are the words of `a` followed by those of `b` |
| Canonicalizer.CanonicWords | Raphael_jolivet_matching_script_annotatedAM.py:6-10 | splitting the canonical form again gives back the sorted, deduplicated words of the input |
| Canonicalizer.CanonicShape | Raphael_jolivet_matching_script_annotatedAM.py:6-10 | the canonical form has no comma and no upper-case letter, is its words joined by single spaces, has strictly sorted non-empty words, and has the same word set as the input |
| Canonicalizer.CanonicIdempotent | Raphael_jolivet_matching_script_annotatedAM.py:6-10 | canonicalising a canonical form changes nothing |
| Canonicalizer.CanonicEqualIff | Raphael_jolivet_matching_script_annotatedAM.py:6-10 | two texts have the same canonical form if and only if they have the same set of lower-cased words |
| Canonicalizer.CanonicIgnoresCase | Raphael_jolivet_matching_script_annotatedAM.py:8 | texts equal up to ASCII case canonicalise alike |
| Canonicalizer.CanonicCommaIsSpace | Raphael_jolivet_matching_script_annotatedAM.py:8 | texts equal once commas become spaces canonicalise alike |
| Canonicalizer.CanonicIgnoresWordOrder | Raphael_jolivet_matching_script_annotatedAM.py:9-10 | `a b` and `b a` canonicalise alike |
| Canonicalizer.CanonicIgnoresRepetition | Raphael_jolivet_matching_script_annotatedAM.py:9 | repeating a text's words does not change its canonical form |
| Canonicalizer.CanonicIgnoresSpaceRuns | Raphael_jolivet_matching_script_annotatedAM.py:9 | two spaces separate words like one, because the empty piece between them is dropped |
| Canonicalizer.WordsOfWord | Raphael_jolivet_matching_script_annotatedAM.py:8-9 | a non-empty text with no space and no comma is the single word it spells, lower-cased |
| Selector.SameLocIsEquivalence | Raphael_jolivet_matching_script_annotatedAM.py:3-14 | `same_loc` is reflexive, symmetric and transitive; GLO and RoW are compatible both ways; two distinct locations not both in {GLO, RoW} are not |
| Selector.SelectAct | Raphael_jolivet_matching_script_annotatedAM.py:27-52 | a unique result is a member of `acts` that passes the location and reference-product filter, flagged exactly when its unit differs; too many matches are exactly the passing members, more than one; not found means no member passes |
| Selector.SelectActReturnsOnlyFit | Raphael_jolivet_matching_script_annotatedAM.py:31-44 | `select_act` returns activity `a` if and only if `a` is in `acts` and is the only activity there that passes the filter |
| Selector.SelectActNoneIff | Raphael_jolivet_matching_script_annotatedAM.py:37-52 | `select_act` returns `None` if and only if no activity passes the filter or two distinct ones do |
| Selector.SelectActIgnoresUnit | Raphael_jolivet_matching_script_annotatedAM.py:41-44 | the exchange's unit never changes which activity is returned, or whether one is |
| NameParser.SegmentErrorIff | Raphael_jolivet_matching_script_annotatedAM.py:59 | the first unpacking raises if and only if the name does not hold exactly two vertical bars, and it reports one more piece than there are bars |
| NameParser.LocationErrorIff | Raphael_jolivet_matching_script_annotatedAM.py:59-61 | with exactly two vertical bars, the second unpacking raises if and only if the first segment does not hold exactly one `{`, and it reports one more piece than there are `{` |
| NameParser.NoBarIsSegmentError | Raphael_jolivet_matching_script_annotatedAM.py:59 | a name with no vertical bar raises at the first unpacking with a single piece |
| NameParser.StripShape | Raphael_jolivet_matching_script_annotatedAM.py:60 | `strip("}")` removes a run of `}` from each end and leaves no `}` at either end |
| NameParser.ParseNameSound | Raphael_jolivet_matching_script_annotatedAM.py:59-61 | every name that parses is some `}`s, the reference name, `{`, the location, some `}`s, a bar, the suffix, a bar and a tail, with no stray separators in the pieces |
| NameParser.ParseNameComplete | Raphael_jolivet_matching_script_annotatedAM.py:59-61 | every name of that shape parses back into exactly its reference name, location and suffix |
| NameParser.ParseNameExample | Raphael_jolivet_matching_script_annotatedAM.py:59-61 | the example name (`Steel {GLO}`, ` market for steel ` and ` Cutoff, U` joined by vertical bars) parses into `Steel `, `GLO` and ` market for steel `, whitespace kept |
| Matcher.ProcessEx | Raphael_jolivet_matching_script_annotatedAM.py:55-71 | the loop over the three lookup texts returns what the specification `Process` gives: the parse error, the first hit with its bucket and selection, or no key |
| Matcher.SearchStopsAtFirstHit | Raphael_jolivet_matching_script_annotatedAM.py:63-71 | the search answers with the first key present in the index, its bucket and the selection made from that bucket; it answers no key only when no key is present |
| Matcher.ProcessTriesKeysInOrder | Raphael_jolivet_matching_script_annotatedAM.py:59-71 | `process_ex` raises the parse error, or returns the bucket of the first of `ref_name + " " + suffix`, `ref_name`, `suffix` present in the index with `select_act`'s result on it even when that is `None`, or returns `None` when none is present |
| Matcher.SearchIgnoresUnit | Raphael_jolivet_matching_script_annotatedAM.py:63-68 | the exchange's unit does not change which key hits or which bucket is returned |
| Matcher.IndexOfSnoc | Raphael_jolivet_matching_script_annotatedAM.py:85-86 | adding an activity to the database adds it to the bucket of its canonical name and changes no other bucket |
| Matcher.AddedIsIndexOf | Raphael_jolivet_matching_script_annotatedAM.py:84-86 | adding the activities one at a time, in order, as `.add` on the `defaultdict(set)` does, builds exactly the index described bucket by bucket |
| Matcher.BuildIndex | Raphael_jolivet_matching_script_annotatedAM.py:84-86 | the loop filling the `defaultdict(set)` builds exactly the index `IndexOf` of the whole database |
| Matcher.IndexBuckets | Raphael_jolivet_matching_script_annotatedAM.py:84-86 | every activity is in the bucket keyed by its canonical name and in no other; every bucket is non-empty |
| Matcher.IndexOfOne | Raphael_jolivet_matching_script_annotatedAM.py:84-86 | a database of one activity gives one bucket, keyed by its canonical name |
| Matcher.MatchSimaproEco | Raphael_jolivet_matching_script_annotatedAM.py:75-104 | the loop gives `MatchAll`; the ghost irregular list holds the names without a vertical bar among the exchanges visited; on success every exchange was visited; on an exception the last one visited was a matched exchange whose resolution raises that exception |
| Matcher.MatchKeys | Raphael_jolivet_matching_script_annotatedAM.py:92-103 | on success the keys of `matching_data` are exactly the names of the technosphere exchanges with a vertical bar |
| Matcher.MatchKeepsOthers | Raphael_jolivet_matching_script_annotatedAM.py:92-103 | an entry whose name no matched exchange carries is left unchanged |
| Matcher.MatchValues | Raphael_jolivet_matching_script_annotatedAM.py:100-103 | on success each matched exchange resolves to an activity, and its entry copies that activity's name, reference product, location and unit |
| Matcher.MatchFailsIff | Raphael_jolivet_matching_script_annotatedAM.py:92-103 | the run raises if and only if some technosphere exchange with a vertical bar fails to resolve |
| Matcher.IrregularNeverMatched | Raphael_jolivet_matching_script_annotatedAM.py:95-96 | a name without a vertical bar never becomes a key of `matching_data` |
| Matcher.IrregularNamesExact | Raphael_jolivet_matching_script_annotatedAM.py:95-96 | the irregular list holds exactly the names of the exchanges without a vertical bar |
| Matcher.ResolveByName | Raphael_jolivet_matching_script_annotatedAM.py:57-68 | how an exchange resolves depends on its name alone, not on its unit |
| Matcher.ResolveFirstKey | Raphael_jolivet_matching_script_annotatedAM.py:63-68 | when the first lookup text hits a bucket of one activity that passes the filter, that activity is the one stored |
| Matcher.MatchOne | Raphael_jolivet_matching_script_annotatedAM.py:92-104 | a single matched exchange that resolves gives a one-entry migration map keyed by its own name |
| LegacyMatcher.LegacyProcessEx | Raphael_jolivet_matching_script.py:55-75 | the older loop returns what `LegacyProcess` gives: the parse error, or the diagnostics printed before it returns `None` |
| LegacyMatcher.LegacyProcessAgrees | Raphael_jolivet_matching_script.py:57-75 | a name without a vertical bar is reported and skipped without parsing, where the called copy would raise; otherwise both copies raise alike, and the older one prints exactly what the called copy's lookup result implies |
| LegacyMatcher.LegacyDiscardsSelection | Raphael_jolivet_matching_script.py:67-72 | two lookups that select different activities of the same unit give the same outcome, so the selected activity never leaves the older `process_ex`; with no unit mismatch it prints nothing and returns `None` |
| Example.CanonicExample | Raphael_jolivet_matching_script_annotatedAM.py:6-10 | `Steel, low-alloyed` and `low-alloyed steel` canonicalise alike, and so do `Steel Steel` and `Steel` |
| Example.SelectorExample | Raphael_jolivet_matching_script_annotatedAM.py:13-44 | of two steel activities in DE and FR, looking for steel in DE selects the DE one with no unit warning; DE and GLO are not compatible |
| Example.ExampleKeys | Raphael_jolivet_matching_script_annotatedAM.py:63-64 | the first lookup text of the example exchange and the activity name `market for steel` have the same canonical key |
| Example.EndToEnd | Raphael_jolivet_matching_script_annotatedAM.py:75-104 | the example name (`Steel {GLO}`, ` market for steel ` and ` Cutoff, U` joined by vertical bars, unit kg) against the one RoW activity `market for steel` gives one migration entry, keyed by the SimaPro name, copying that activity |

## Left out

- `print` output and `format_acts`. What is printed is kept as data: the
  `Selection` and `Lookup` values carry the matches, the candidates and the
  unit-mismatch flag, and the older copy's `process_ex` returns a list of
  `Diagnostic` values. The message text and its `%` formatting are not
  modelled.
- `str.lower` is an ASCII case fold, and words are ordered by character
  code. Unicode case mapping beyond ASCII is not modelled.
- Brightway activity and exchange objects become plain records with the
  fields the script reads. Their identity and hashing are not modelled.
  Activities equal in all four fields count as one member of a bucket.
- The order in which a Python set is iterated is not modelled. No result
  of the script depends on it, because `select_act` decides by the number
  of matches.
- `formit_csv_import_v2.py` and the `Formit_biosphere_matching` module it
  calls are not part of this model. They are Brightway import, migration
  and export glue.
- Matcher.MatchSimaproEco: `list_irregular_exc` and `counter` are ghost
  out-parameters, because the source never returns them or uses their
  values.
- `match_simapro_eco` of the older copy (Raphael_jolivet_matching_script.py
  lines 79-93) is not modelled. It reads `sima_name`, which it never
  defines, so it raises `NameError` on the first exchange, before it does
  any work. Its early `return` on an
  irregular name and its per-exchange rebuild of the index are never
  reached.
- The `itertools.islice` selection (commented out) and the `import` lines
  have no behaviour to model.
