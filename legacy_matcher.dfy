/**
  `process_ex` of the older copy of the matching script. Its `canonic`,
  `same_loc`, `format_acts` and `select_act` are the same text as in the
  called copy and are the ones in `Canonicalizer` and `Selector`. Its
  `process_ex` differs: it skips a name without `|` before parsing, and
  after the first key that hits it discards `select_act`'s result and
  returns `None`, so all it leaves behind is what it prints.
*/
module LegacyMatcher {
  import opened Wrappers
  import opened Inventory
  import opened Canonicalizer
  import opened Selector
  import opened NameParser
  import opened Matcher

  /** The diagnostics printed along the way (their text is not modelled). */
  datatype Diagnostic =
    | DoesNotFit(ex: Exchange)                                        // "does not fit Raphaels algorithm"
    | MismatchedUnit(refName: string, unit: string, actUnit: string)  // select_act: "Mismatched unit"
    | TooMuchMatches(matches: set<Activity>)                          // select_act: "Too much matches"
    | NotFoundIn(candidates: set<Activity>)                           // select_act: "Not found"
    | NoMatchFound(ex: Exchange)                                      // "No match found"

  /** What `select_act` prints for a selection. */
  function SelectionPrints(sel: Selection, refName: string, unit: string): seq<Diagnostic>
  {
    match sel
    case Unique(a, mismatch) => if mismatch then [MismatchedUnit(refName, unit, a.unit)] else []
    case TooMany(m) => [TooMuchMatches(m)]
    case NotFound(c) => [NotFoundIn(c)]
  }

  /** What a lookup prints. */
  function Printed(l: Lookup, ex: Exchange, p: ParsedName): seq<Diagnostic>
  {
    match l
    case NoKey => [NoMatchFound(ex)]
    case Hit(_, _, sel) => SelectionPrints(sel, p.refName, ex.unit)
  }

  /** The older `process_ex`: `Err` is the `ValueError` of its unpackings; otherwise it returns `None` after printing. */
  function LegacyProcess(ex: Exchange, index: Index): Result<seq<Diagnostic>, ParseError>
  {
    if '|' !in ex.name then Ok([DoesNotFit(ex)])
    else match ParseName(ex.name)
      case Err(e) => Err(e)
      case Ok(p) => Ok(Printed(Search(LookupKeys(p), index, ex.unit, p), ex, p))
  }

  method LegacyProcessEx(ex: Exchange, index: Index) returns (r: Result<seq<Diagnostic>, ParseError>)
    ensures r == LegacyProcess(ex, index)
  {
    if '|' !in ex.name {
      return Ok([DoesNotFit(ex)]);
    }
    var parsed := ParseName(ex.name);
    if parsed.Err? {
      return Err(parsed.error);
    }
    var p := parsed.value;
    var tests := [p.refName + " " + p.suffix, p.refName, p.suffix];
    ghost var keys := LookupKeys(p);
    for i := 0 to |tests|
      invariant tests == LookupTexts(p)
      invariant Search(keys[i..], index, ex.unit, p) == Search(keys, index, ex.unit, p)
    {
      var canonTest := Canonic(tests[i]);
      if canonTest in index {
        var candidates := index[canonTest];
        var act := SelectAct(candidates, ex.unit, p.location, p.refName);
        return Ok(SelectionPrints(act, p.refName, ex.unit));
      }
      assert keys[i..][1..] == keys[i + 1..];
    }
    return Ok([NoMatchFound(ex)]);
  }

  // ---------------------------------------------------------------------------
  // Properties
  // ---------------------------------------------------------------------------

  /**
    A name without `|` is skipped before any parsing, where the called copy
    raises on the first unpacking; a name with `|` gets exactly the treatment of
    the called copy's `process_ex`, minus the returned values.
  */
  lemma LegacyProcessAgrees(ex: Exchange, index: Index)
    ensures '|' !in ex.name ==>
      LegacyProcess(ex, index) == Ok([DoesNotFit(ex)]) && Process(ex, index) == Err(SegmentCount(1))
    ensures '|' in ex.name ==>
      && (LegacyProcess(ex, index).Err? <==> Process(ex, index).Err?)
      && (Process(ex, index).Err? ==> LegacyProcess(ex, index).error == Process(ex, index).error)
      && (Process(ex, index).Ok? ==>
            LegacyProcess(ex, index).value == Printed(Process(ex, index).value, ex, ParseName(ex.name).value))
  {
    if '|' !in ex.name {
      NoBarIsSegmentError(ex.name);
    }
  }

  /**
    The activity `select_act` finds is thrown away: two indexes that lead to
    different activities of the same unit give the same outcome, and without
    a unit mismatch nothing is printed at all.
  */
  lemma LegacyDiscardsSelection(ex: Exchange, index1: Index, index2: Index)
    requires Process(ex, index1).Ok? && Process(ex, index1).value.Hit?
    requires Process(ex, index2).Ok? && Process(ex, index2).value.Hit?
    requires Process(ex, index1).value.selection.Unique? && Process(ex, index2).value.selection.Unique?
    requires Process(ex, index1).value.selection.act.unit == Process(ex, index2).value.selection.act.unit
    ensures LegacyProcess(ex, index1) == LegacyProcess(ex, index2)
    ensures !Process(ex, index1).value.selection.unitMismatch ==> LegacyProcess(ex, index1) == Ok([])
  {
    assert '|' in ex.name by {
      if '|' !in ex.name {
        NoBarIsSegmentError(ex.name);
      }
    }
    LegacyProcessAgrees(ex, index1);
    LegacyProcessAgrees(ex, index2);
    var p := ParseName(ex.name).value;
    SearchIgnoresUnit(LookupKeys(p), index1, ex.unit, ex.unit, p);
    SearchIgnoresUnit(LookupKeys(p), index2, ex.unit, ex.unit, p);
  }
}
