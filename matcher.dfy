/**
  `process_ex` and `match_simapro_eco` of the copy of the matching script that
  the import script calls: the index of reference activities by canonical
  name, the three-key lookup of one exchange, and the loop over the unlinked
  exchanges that fills the migration data.
*/
module Matcher {
  import opened Wrappers
  import opened Inventory
  import opened Canonicalizer
  import opened Selector
  import opened NameParser

  /** `ei_by_name`: canonical activity name to the set of activities with that name. */
  type Index = map<string, set<Activity>>

  /**
    What `process_ex` does with a parsed name. `Hit` is the return
    `act, candidates` (with the key that found the bucket); `NoKey` is the
    "No match found" print followed by the bare `return`.
  */
  datatype Lookup =
    | Hit(key: string, candidates: set<Activity>, selection: Selection)
    | NoKey

  /** The texts tried, in priority order: `[ref_name + " " + suffix, ref_name, suffix]`. */
  function LookupTexts(p: ParsedName): seq<string>
  {
    [p.refName + " " + p.suffix, p.refName, p.suffix]
  }

  /** The canonical forms of the lookup texts, in the same order. */
  function LookupKeys(p: ParsedName): seq<string>
  {
    seq(|LookupTexts(p)|, i requires 0 <= i < |LookupTexts(p)| => Canonic(LookupTexts(p)[i]))
  }

  /** Goes through `keys` and stops at the first one present in the index. */
  function Search(keys: seq<string>, index: Index, unit: string, p: ParsedName): Lookup
    decreases |keys|
  {
    if |keys| == 0 then NoKey
    else if keys[0] in index then
      Hit(keys[0], index[keys[0]], SelectAct(index[keys[0]], unit, p.location, p.refName))
    else Search(keys[1..], index, unit, p)
  }

  /** `process_ex(ex, ei_by_name)`; `Err` is the `ValueError` of its unpackings. */
  function Process(ex: Exchange, index: Index): Result<Lookup, ParseError>
  {
    match ParseName(ex.name)
    case Err(e) => Err(e)
    case Ok(p) => Ok(Search(LookupKeys(p), index, ex.unit, p))
  }

  /** `keys[i]` is in the index and no earlier key is. */
  ghost predicate FirstHitAt(keys: seq<string>, index: Index, i: int)
  {
    0 <= i < |keys| && keys[i] in index && forall j :: 0 <= j < i ==> keys[j] !in index
  }

  method ProcessEx(ex: Exchange, index: Index) returns (r: Result<Lookup, ParseError>)
    ensures r == Process(ex, index)
  {
    var parsed := ParseName(ex.name);
    if parsed.Err? {
      return Err(parsed.error);
    }
    var p := parsed.value;
    var tests := [p.refName + " " + p.suffix, p.refName, p.suffix];
    ghost var keys := LookupKeys(p);
    for i := 0 to |tests|
      invariant tests == LookupTexts(p)
      invariant Search(keys[i..], index, ex.unit, p) == Search(keys, index, ex.unit, p)
    {
      var canonTest := Canonic(tests[i]);
      if canonTest in index {
        var candidates := index[canonTest];
        var act := SelectAct(candidates, ex.unit, p.location, p.refName);
        return Ok(Hit(canonTest, candidates, act));
      }
      assert keys[i..][1..] == keys[i + 1..];
    }
    return Ok(NoKey);
  }

  // ---------------------------------------------------------------------------
  // The index
  // ---------------------------------------------------------------------------

  function NameKeys(db: seq<Activity>): set<string>
  {
    set a | a in db :: Canonic(a.name)
  }

  /** The activities of `db` whose canonical name is `k`. */
  function Bucket(db: seq<Activity>, k: string): set<Activity>
  {
    set a | a in db && Canonic(a.name) == k
  }

  /** The index that the loop over `ei_db` builds. */
  function IndexOf(db: seq<Activity>): Index
  {
    map k | k in NameKeys(db) :: Bucket(db, k)
  }

  lemma BucketSnoc(prefix: seq<Activity>, act: Activity, k: string)
    ensures Bucket(prefix + [act], k) == Bucket(prefix, k) + (if Canonic(act.name) == k then {act} else {})
  {
    var db := prefix + [act];
    forall a ensures a in Bucket(db, k) <==> a in Bucket(prefix, k) || (a == act && Canonic(act.name) == k) {
      assert a in db <==> a in prefix || a == act;
    }
  }

  lemma NameKeysSnoc(prefix: seq<Activity>, act: Activity)
    ensures NameKeys(prefix + [act]) == NameKeys(prefix) + {Canonic(act.name)}
  {
    var db := prefix + [act];
    forall k ensures k in NameKeys(db) <==> k in NameKeys(prefix) || k == Canonic(act.name) {
      if k in NameKeys(db) {
        var a :| a in db && Canonic(a.name) == k;
        assert a in prefix || a == act;
      }
      if k in NameKeys(prefix) {
        var a :| a in prefix && Canonic(a.name) == k;
        assert a in db;
      }
      assert act in db;
    }
  }

  lemma NotInIndexIsEmpty(db: seq<Activity>, k: string)
    requires k !in NameKeys(db)
    ensures Bucket(db, k) == {}
  {
    forall a | a in db ensures Canonic(a.name) != k {
      assert Canonic(a.name) in NameKeys(db);
    }
  }

  /** `ei_by_name[canonic(act["name"])].add(act)` on a `defaultdict(set)`. */
  function AddTo(index: Index, act: Activity): Index
  {
    var key := Canonic(act.name);
    index[key := (if key in index then index[key] else {}) + {act}]
  }

  /** The bucket of a key after adding `act`, for a key that is in the new index. */
  lemma IndexOfSnocAt(prefix: seq<Activity>, act: Activity, k: string)
    requires k in NameKeys(prefix) || k == Canonic(act.name)
    ensures Bucket(prefix + [act], k) == AddTo(IndexOf(prefix), act)[k]
  {
    BucketSnoc(prefix, act, k);
    if k !in NameKeys(prefix) {
      NotInIndexIsEmpty(prefix, k);
    }
  }

  /** Adding an activity to the database adds it to the bucket of its canonical name, and nothing else. */
  lemma IndexOfSnoc(prefix: seq<Activity>, act: Activity)
    ensures IndexOf(prefix + [act]) == AddTo(IndexOf(prefix), act)
  {
    var db := prefix + [act];
    var expected := AddTo(IndexOf(prefix), act);
    assert IndexOf(db).Keys == expected.Keys by {
      NameKeysSnoc(prefix, act);
    }
    forall k | k in expected ensures IndexOf(db)[k] == expected[k] {
      IndexOfSnocAt(prefix, act, k);
    }
  }

  /** The index after adding the activities of `db` one by one, in order. */
  function Added(db: seq<Activity>): Index
    decreases |db|
  {
    if |db| == 0 then map[] else AddTo(Added(db[..|db| - 1]), db[|db| - 1])
  }

  /** Adding the activities one by one builds the index described bucket by bucket. */
  lemma {:induction false} AddedIsIndexOf(db: seq<Activity>)
    ensures Added(db) == IndexOf(db)
    decreases |db|
  {
    if |db| == 0 {
      assert NameKeys(db) == {};
    } else {
      var prefix := db[..|db| - 1];
      AddedIsIndexOf(prefix);
      IndexOfSnoc(prefix, db[|db| - 1]);
      assert prefix + [db[|db| - 1]] == db;
    }
  }

  /** The loop `for act in ei_db: ei_by_name[canonic(act["name"])].add(act)`. */
  method BuildIndex(db: seq<Activity>) returns (index: Index)
    ensures index == IndexOf(db)
  {
    index := map[];
    for i := 0 to |db|
      invariant index == Added(db[..i])
    {
      var act := db[i];
      var key := Canonic(act.name);
      var bucket := if key in index then index[key] else {};
      assert db[..i + 1][..i] == db[..i];
      index := index[key := bucket + {act}];
    }
    assert db[..|db|] == db;
    AddedIsIndexOf(db);
  }

  // ---------------------------------------------------------------------------
  // The orchestrator
  // ---------------------------------------------------------------------------

  /** Follows the SimaPro naming convention as far as the `"|"` test checks. */
  predicate IsRegular(ex: Exchange)
  {
    '|' in ex.name
  }

  /** Reaches `process_ex`: has a `|` and is a technosphere exchange. */
  predicate IsMatched(ex: Exchange)
  {
    IsRegular(ex) && ex.kind == Technosphere
  }

  /** The exception that ends `match_simapro_eco`. */
  datatype Failure =
    | Unpacking(name: string, error: ParseError)        // ValueError inside `process_ex`
    | NoLookupKey(name: string)                        // TypeError: `process_ex` returned None
    | NoActivity(name: string, selection: Selection)   // TypeError: `select_act` returned None

  /** The activity stored for a matched exchange, or the exception it raises. */
  function Resolve(ex: Exchange, index: Index): Result<Activity, Failure>
  {
    match Process(ex, index)
    case Err(e) => Err(Unpacking(ex.name, e))
    case Ok(NoKey) => Err(NoLookupKey(ex.name))
    case Ok(Hit(_, _, sel)) =>
      if sel.Unique? then Ok(sel.act) else Err(NoActivity(ex.name, sel))
  }

  /** The loop over the exchanges, from the migration data gathered so far. */
  function MatchFrom(index: Index, exs: seq<Exchange>, acc: map<string, Entry>): Result<map<string, Entry>, Failure>
    decreases |exs|
  {
    if |exs| == 0 then Ok(acc)
    else if !IsMatched(exs[0]) then MatchFrom(index, exs[1..], acc)
    else match Resolve(exs[0], index)
      case Err(f) => Err(f)
      case Ok(a) => MatchFrom(index, exs[1..], acc[exs[0].name := EntryOf(a)])
  }

  /** `match_simapro_eco(simapro_importer, ei_db)`: raises or returns `matching_data`. */
  function MatchAll(unlinked: seq<Exchange>, db: seq<Activity>): Result<map<string, Entry>, Failure>
  {
    MatchFrom(IndexOf(db), unlinked, map[])
  }

  /** `list_irregular_exc`: the names without `|`, in order. */
  function IrregularNames(exs: seq<Exchange>): seq<string>
    decreases |exs|
  {
    if |exs| == 0 then []
    else IrregularNames(exs[..|exs| - 1]) + (if IsRegular(exs[|exs| - 1]) then [] else [exs[|exs| - 1].name])
  }

  /**
    `match_simapro_eco`. `irregular` is `list_irregular_exc` and `counter` the
    number of exchanges visited; the source builds both and returns neither.
  */
  method MatchSimaproEco(unlinked: seq<Exchange>, db: seq<Activity>)
    returns (r: Result<map<string, Entry>, Failure>, ghost irregular: seq<string>, ghost counter: nat)
    ensures r == MatchAll(unlinked, db)
    ensures counter <= |unlinked| && irregular == IrregularNames(unlinked[..counter])
    ensures r.Ok? ==> counter == |unlinked|
    ensures r.Err? ==> 0 < counter && IsMatched(unlinked[counter - 1])
                       && Resolve(unlinked[counter - 1], IndexOf(db)) == Err(r.error)
  {
    irregular := [];
    var matchingData: map<string, Entry> := map[];
    var eiByName := BuildIndex(db);
    counter := 0;
    for i := 0 to |unlinked|
      invariant counter == i
      invariant irregular == IrregularNames(unlinked[..i])
      invariant MatchFrom(eiByName, unlinked[i..], matchingData) == MatchAll(unlinked, db)
    {
      var ex := unlinked[i];
      counter := counter + 1;
      assert unlinked[..i + 1][..i] == unlinked[..i];
      assert unlinked[i..][1..] == unlinked[i + 1..];
      if '|' !in ex.name {
        irregular := irregular + [ex.name];
      } else if ex.kind == Technosphere {
        var found := ProcessEx(ex, eiByName);
        match found {
          case Err(e) =>
            r := Err(Unpacking(ex.name, e));
            return;
          case Ok(NoKey) =>
            r := Err(NoLookupKey(ex.name));
            return;
          case Ok(Hit(_, candidates, matchingAct)) =>
            if !matchingAct.Unique? {
              r := Err(NoActivity(ex.name, matchingAct));
              return;
            }
            matchingData := matchingData[ex.name := EntryOf(matchingAct.act)];
        }
      }
    }
    assert unlinked[..|unlinked|] == unlinked;
    r := Ok(matchingData);
  }

  // ---------------------------------------------------------------------------
  // Properties of process_ex
  // ---------------------------------------------------------------------------

  lemma {:induction false} SearchStopsAtFirstHit(keys: seq<string>, index: Index, unit: string, p: ParsedName)
    ensures forall i :: FirstHitAt(keys, index, i) ==>
      Search(keys, index, unit, p) == Hit(keys[i], index[keys[i]], SelectAct(index[keys[i]], unit, p.location, p.refName))
    ensures (forall i :: 0 <= i < |keys| ==> keys[i] !in index) ==> Search(keys, index, unit, p) == NoKey
    decreases |keys|
  {
    if |keys| > 0 && keys[0] !in index {
      SearchStopsAtFirstHit(keys[1..], index, unit, p);
      forall i | FirstHitAt(keys, index, i)
        ensures Search(keys, index, unit, p) == Hit(keys[i], index[keys[i]], SelectAct(index[keys[i]], unit, p.location, p.refName))
      {
        assert FirstHitAt(keys[1..], index, i - 1);
      }
    }
  }

  /**
    `process_ex` tries `ref_name + " " + suffix`, then `ref_name`, then
    `suffix` (each canonicalised), answers with the bucket of the first key
    present and `select_act`'s verdict on that bucket, whatever that verdict
    is, and never looks at a later key; it answers `NoKey` only when no key is
    present. A name that does not unpack raises.
  */
  lemma ProcessTriesKeysInOrder(ex: Exchange, index: Index)
    ensures ParseName(ex.name).Err? ==> Process(ex, index) == Err(ParseName(ex.name).error)
    ensures ParseName(ex.name).Ok? ==>
      var p := ParseName(ex.name).value;
      var keys := LookupKeys(p);
      && (forall i :: FirstHitAt(keys, index, i) ==>
            Process(ex, index) == Ok(Hit(keys[i], index[keys[i]], SelectAct(index[keys[i]], ex.unit, p.location, p.refName))))
      && ((forall i :: 0 <= i < |keys| ==> keys[i] !in index) ==> Process(ex, index) == Ok(NoKey))
  {
    if ParseName(ex.name).Ok? {
      var p := ParseName(ex.name).value;
      SearchStopsAtFirstHit(LookupKeys(p), index, ex.unit, p);
    }
  }

  // ---------------------------------------------------------------------------
  // Properties of the index
  // ---------------------------------------------------------------------------

  /** Every activity is in the bucket of its canonical name and in no other; no bucket is empty. */
  lemma IndexBuckets(db: seq<Activity>)
    ensures forall a :: a in db ==> Canonic(a.name) in IndexOf(db) && a in IndexOf(db)[Canonic(a.name)]
    ensures forall k, a :: k in IndexOf(db) && a in IndexOf(db)[k] ==> a in db && Canonic(a.name) == k
    ensures forall k :: k in IndexOf(db) ==> IndexOf(db)[k] != {}
  {
    forall k | k in IndexOf(db) ensures IndexOf(db)[k] != {} {
      var a :| a in db && Canonic(a.name) == k;
      assert a in Bucket(db, k);
    }
  }

  // ---------------------------------------------------------------------------
  // Properties of match_simapro_eco
  // ---------------------------------------------------------------------------

  /** The names of the exchanges that reach `process_ex`. */
  function MatchedNames(exs: seq<Exchange>): set<string>
  {
    set ex | ex in exs && IsMatched(ex) :: ex.name
  }

  lemma MatchedNamesCons(exs: seq<Exchange>)
    requires |exs| > 0
    ensures MatchedNames(exs) == (if IsMatched(exs[0]) then {exs[0].name} else {}) + MatchedNames(exs[1..])
  {
    assert forall ex :: ex in exs <==> ex == exs[0] || ex in exs[1..];
  }

  lemma {:induction false} SearchIgnoresUnit(keys: seq<string>, index: Index, unit1: string, unit2: string, p: ParsedName)
    ensures Search(keys, index, unit1, p).NoKey? <==> Search(keys, index, unit2, p).NoKey?
    ensures Search(keys, index, unit1, p).Hit? ==>
      var h1, h2 := Search(keys, index, unit1, p), Search(keys, index, unit2, p);
      h1.key == h2.key && h1.candidates == h2.candidates
      && h1.selection == SelectAct(h1.candidates, unit1, p.location, p.refName)
      && h2.selection == SelectAct(h1.candidates, unit2, p.location, p.refName)
    decreases |keys|
  {
    if |keys| > 0 && keys[0] !in index {
      SearchIgnoresUnit(keys[1..], index, unit1, unit2, p);
    }
  }

  /** Exchanges of the same name resolve alike: the unit only sets a warning. */
  lemma ResolveByName(ex1: Exchange, ex2: Exchange, index: Index)
    requires ex1.name == ex2.name
    ensures Resolve(ex1, index) == Resolve(ex2, index)
  {
    if ParseName(ex1.name).Ok? {
      var p := ParseName(ex1.name).value;
      SearchIgnoresUnit(LookupKeys(p), index, ex1.unit, ex2.unit, p);
      var h := Search(LookupKeys(p), index, ex1.unit, p);
      if h.Hit? {
        SelectActIgnoresUnit(h.candidates, ex1.unit, ex2.unit, p.location, p.refName);
      }
    }
  }

  /** On success the keys are those gathered before plus the names of the matched exchanges. */
  lemma {:induction false} MatchKeys(index: Index, exs: seq<Exchange>, acc: map<string, Entry>)
    ensures MatchFrom(index, exs, acc).Ok? ==>
              MatchFrom(index, exs, acc).value.Keys == acc.Keys + MatchedNames(exs)
    decreases |exs|
  {
    if |exs| > 0 {
      MatchedNamesCons(exs);
      if !IsMatched(exs[0]) {
        MatchKeys(index, exs[1..], acc);
      } else if Resolve(exs[0], index).Ok? {
        MatchKeys(index, exs[1..], acc[exs[0].name := EntryOf(Resolve(exs[0], index).value)]);
      }
    }
  }

  lemma {:induction false} MatchKeepsOthers(index: Index, exs: seq<Exchange>, acc: map<string, Entry>, n: string)
    requires n in acc && n !in MatchedNames(exs)
    ensures MatchFrom(index, exs, acc).Ok? ==>
              n in MatchFrom(index, exs, acc).value && MatchFrom(index, exs, acc).value[n] == acc[n]
    decreases |exs|
  {
    if |exs| > 0 {
      MatchedNamesCons(exs);
      if !IsMatched(exs[0]) {
        MatchKeepsOthers(index, exs[1..], acc, n);
      } else if Resolve(exs[0], index).Ok? {
        MatchKeepsOthers(index, exs[1..], acc[exs[0].name := EntryOf(Resolve(exs[0], index).value)], n);
      }
    }
  }

  /**
    On success every matched exchange resolved to an activity, and the value
    stored under its name copies that activity's name, reference product,
    location and unit.
  */
  lemma {:induction false} MatchValues(index: Index, exs: seq<Exchange>, acc: map<string, Entry>)
    ensures MatchFrom(index, exs, acc).Ok? ==>
      forall ex :: ex in exs && IsMatched(ex) ==>
        && Resolve(ex, index).Ok?
        && ex.name in MatchFrom(index, exs, acc).value
        && MatchFrom(index, exs, acc).value[ex.name] == EntryOf(Resolve(ex, index).value)
    decreases |exs|
  {
    if |exs| > 0 && MatchFrom(index, exs, acc).Ok? {
      var m := MatchFrom(index, exs, acc).value;
      if !IsMatched(exs[0]) {
        MatchValues(index, exs[1..], acc);
      } else {
        var head := exs[0];
        var acc' := acc[head.name := EntryOf(Resolve(head, index).value)];
        assert m == MatchFrom(index, exs[1..], acc').value;
        MatchValues(index, exs[1..], acc');
        if head.name in MatchedNames(exs[1..]) {
          var later :| later in exs[1..] && IsMatched(later) && later.name == head.name;
          ResolveByName(head, later, index);
        } else {
          MatchKeepsOthers(index, exs[1..], acc', head.name);
        }
      }
    }
  }

  /** The run fails exactly when some exchange that reaches `process_ex` does not resolve. */
  lemma {:induction false} MatchFailsIff(index: Index, exs: seq<Exchange>, acc: map<string, Entry>)
    ensures MatchFrom(index, exs, acc).Err? <==>
              exists ex :: ex in exs && IsMatched(ex) && Resolve(ex, index).Err?
    decreases |exs|
  {
    if |exs| > 0 {
      assert forall ex :: ex in exs <==> ex == exs[0] || ex in exs[1..];
      if !IsMatched(exs[0]) {
        MatchFailsIff(index, exs[1..], acc);
      } else if Resolve(exs[0], index).Ok? {
        MatchFailsIff(index, exs[1..], acc[exs[0].name := EntryOf(Resolve(exs[0], index).value)]);
      }
    }
  }

  /**
    A name without `|` is never a key of `matching_data`, whatever its type:
    the `"|"` test comes before the technosphere test.
  */
  lemma IrregularNeverMatched(unlinked: seq<Exchange>, db: seq<Activity>)
    ensures MatchAll(unlinked, db).Ok? ==>
      forall ex :: ex in unlinked && !IsRegular(ex) ==> ex.name !in MatchAll(unlinked, db).value
  {
    MatchKeys(IndexOf(db), unlinked, map[]);
    assert forall n :: n in MatchedNames(unlinked) ==> '|' in n;
  }

  /** `list_irregular_exc` holds exactly the names without `|`. */
  lemma {:induction false} IrregularNamesExact(exs: seq<Exchange>)
    ensures forall n :: n in IrregularNames(exs) <==> exists ex :: ex in exs && !IsRegular(ex) && ex.name == n
    decreases |exs|
  {
    if |exs| > 0 {
      var init := exs[..|exs| - 1];
      IrregularNamesExact(init);
      assert forall ex :: ex in exs <==> ex in init || ex == exs[|exs| - 1] by {
        assert exs == init + [exs[|exs| - 1]];
      }
    }
  }

  /** A database of one activity gives an index with one bucket. */
  lemma IndexOfOne(act: Activity)
    ensures IndexOf([act]) == map[Canonic(act.name) := {act}]
  {
    assert NameKeys([act]) == {Canonic(act.name)};
    assert Bucket([act], Canonic(act.name)) == {act};
  }

  /**
    When the first lookup text hits a bucket holding exactly one activity that
    fits, that activity is the one stored for the exchange.
  */
  lemma ResolveFirstKey(ex: Exchange, index: Index, p: ParsedName, a: Activity)
    requires ParseName(ex.name) == Ok(p)
    requires Canonic(p.refName + " " + p.suffix) in index
    requires index[Canonic(p.refName + " " + p.suffix)] == {a} && Fits(a, p.location, p.refName)
    ensures Resolve(ex, index) == Ok(a)
  {
    var keys := LookupKeys(p);
    assert FirstHitAt(keys, index, 0);
    ProcessTriesKeysInOrder(ex, index);
    SelectActReturnsOnlyFit({a}, ex.unit, p.location, p.refName, a);
  }

  /** A single matched exchange that resolves gives a one-entry migration map. */
  lemma MatchOne(ex: Exchange, db: seq<Activity>, a: Activity)
    requires IsMatched(ex) && Resolve(ex, IndexOf(db)) == Ok(a)
    ensures MatchAll([ex], db) == Ok(map[ex.name := EntryOf(a)])
  {
    var index := IndexOf(db);
    assert [ex][1..] == [];
    assert MatchFrom(index, [], map[][ex.name := EntryOf(a)]) == Ok(map[ex.name := EntryOf(a)]);
  }
}
