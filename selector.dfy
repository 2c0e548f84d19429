/**
  `same_loc` and `select_act`, identical in both copies of the matching
  script: the location test and the choice of the one candidate activity whose
  location is compatible and whose canonical reference product equals the
  canonical reference name of the exchange.
*/
module Selector {
  import opened Wrappers
  import opened Inventory
  import opened Canonicalizer

  /** `GLO_LOCS`: the global and rest-of-world codes, interchangeable for matching. */
  const GloLocs: seq<string> := ["GLO", "RoW"]

  predicate SameLoc(loc1: string, loc2: string)
  {
    loc1 == loc2 || (loc1 in GloLocs && loc2 in GloLocs)
  }

  /** The filter of the list comprehension in `select_act`. */
  predicate Fits(a: Activity, loc: string, refName: string)
  {
    SameLoc(loc, a.location) && Canonic(a.refProduct) == Canonic(refName)
  }

  /** `matches`; a set because the candidates come from a set of activities. */
  function Matches(acts: set<Activity>, loc: string, refName: string): set<Activity>
  {
    set a | a in acts && Fits(a, loc, refName)
  }

  /**
    The outcome of `select_act`. Only `Unique` is returned as an activity; the
    other two stand for the `None` return together with what the source prints:
    the surviving matches when there are several, all candidates when none
    survives. `unitMismatch` records the "Mismatched unit" warning.
  */
  datatype Selection =
    | Unique(act: Activity, unitMismatch: bool)
    | TooMany(matches: set<Activity>)
    | NotFound(candidates: set<Activity>)
  {
    /** The value `select_act` returns. */
    function Chosen(): Option<Activity>
    {
      if Unique? then Some(act) else None
    }
  }

  lemma SingletonHasOneElement(m: set<Activity>, a: Activity, b: Activity)
    requires |m| == 1 && a in m && b in m
    ensures a == b
  {
    var rest := m - {a};
    assert |rest| == 0;
    assert b !in rest;
  }

  /** `select_act(acts, ex, loc, ref_name, sima_name)` with `ex["unit"]` passed as `unit`. */
  function SelectAct(acts: set<Activity>, unit: string, loc: string, refName: string): (r: Selection)
    ensures r.Unique? ==> r.act in acts && Fits(r.act, loc, refName)
    ensures r.Unique? ==> r.unitMismatch == (r.act.unit != unit)
    ensures r.TooMany? ==> r.matches <= acts && |r.matches| > 1
    ensures r.TooMany? ==> forall a :: a in r.matches <==> a in acts && Fits(a, loc, refName)
    ensures r.NotFound? ==> r.candidates == acts && forall a :: a in acts ==> !Fits(a, loc, refName)
  {
    var matches := Matches(acts, loc, refName);
    if |matches| == 1 then
      var a :| a in matches;
      assert forall b :: b in matches ==> b == a by {
        forall b | b in matches ensures b == a {
          SingletonHasOneElement(matches, a, b);
        }
      }
      Unique(a, a.unit != unit)
    else if |matches| > 1 then
      TooMany(matches)
    else
      assert forall a :: a in acts ==> !Fits(a, loc, refName) by {
        forall a | a in acts ensures !Fits(a, loc, refName) {
          assert Fits(a, loc, refName) ==> a in matches;
        }
      }
      NotFound(acts)
  }

  // ---------------------------------------------------------------------------
  // Properties
  // ---------------------------------------------------------------------------

  /** `a` is the only candidate that passes the filter. */
  ghost predicate IsOnlyFit(acts: set<Activity>, loc: string, refName: string, a: Activity)
  {
    a in acts && Fits(a, loc, refName) &&
    forall b :: b in acts && Fits(b, loc, refName) ==> b == a
  }

  /** `same_loc` is an equivalence in which GLO and RoW are one class and every other code is its own. */
  lemma SameLocIsEquivalence()
    ensures forall l :: SameLoc(l, l)
    ensures forall l1, l2 :: SameLoc(l1, l2) == SameLoc(l2, l1)
    ensures forall l1, l2, l3 :: SameLoc(l1, l2) && SameLoc(l2, l3) ==> SameLoc(l1, l3)
    ensures SameLoc("GLO", "RoW") && SameLoc("RoW", "GLO")
    ensures forall l1, l2 :: l1 != l2 && !(l1 in {"GLO", "RoW"} && l2 in {"GLO", "RoW"}) ==> !SameLoc(l1, l2)
  {
  }

  /** `select_act` returns an activity exactly when it is the only candidate passing the filter. */
  lemma SelectActReturnsOnlyFit(acts: set<Activity>, unit: string, loc: string, refName: string, a: Activity)
    ensures SelectAct(acts, unit, loc, refName).Chosen() == Some(a) <==> IsOnlyFit(acts, loc, refName, a)
  {
    var m := Matches(acts, loc, refName);
    var r := SelectAct(acts, unit, loc, refName);
    if IsOnlyFit(acts, loc, refName, a) {
      assert m == {a};
    }
    if r.Chosen() == Some(a) {
      assert a in m;
      forall b | b in acts && Fits(b, loc, refName) ensures b == a {
        assert b in m;
        SingletonHasOneElement(m, a, b);
      }
    }
  }

  /** `select_act` returns `None` exactly when no candidate, or more than one, passes the filter. */
  lemma SelectActNoneIff(acts: set<Activity>, unit: string, loc: string, refName: string)
    ensures SelectAct(acts, unit, loc, refName).Chosen() == None <==>
      (forall a :: a in acts ==> !Fits(a, loc, refName)) ||
      (exists a, b :: a in acts && b in acts && a != b && Fits(a, loc, refName) && Fits(b, loc, refName))
  {
    var r := SelectAct(acts, unit, loc, refName);
    var m := Matches(acts, loc, refName);
    if r.TooMany? {
      var a :| a in m;
      assert |m - {a}| > 0;
      var b :| b in m - {a};
    }
    if r.Unique? {
      forall a, b | a in acts && b in acts && Fits(a, loc, refName) && Fits(b, loc, refName)
        ensures a == b
      {
        SingletonHasOneElement(m, a, b);
      }
    }
  }

  /** A unit mismatch never blocks the match: the unit only sets the warning flag. */
  lemma SelectActIgnoresUnit(acts: set<Activity>, unit1: string, unit2: string, loc: string, refName: string)
    ensures SelectAct(acts, unit1, loc, refName).Chosen() == SelectAct(acts, unit2, loc, refName).Chosen()
    ensures !SelectAct(acts, unit1, loc, refName).Unique? ==>
              SelectAct(acts, unit1, loc, refName) == SelectAct(acts, unit2, loc, refName)
  {
  }
}
