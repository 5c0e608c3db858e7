/** The loop of 342.py's `get_file_analytic` over the year groups, taken
    apart from how each year's figures are computed. */
module YearFold {
  import opened Wrappers
  import opened Seqs
  import opened Dicts
  import opened Records

  /** The result of `get_analitic_by_year` */
  datatype YearFigures = YearFigures(count: nat, averageSalary: int, countProfession: nat, averageProfession: int)

  /** The loop over the groups in the order `years`, `figures` giving each
      year's result of `get_analitic_by_year` */
  function FoldYears(years: seq<string>, figures: string -> Option<YearFigures>): Option<YearTables>
  {
    if |years| == 0 then Some(YearTables(Empty(), Empty(), Empty(), Empty()))
    else
      match FoldYears(years[..|years| - 1], figures)
      case None => None
      case Some(t) =>
        var y := years[|years| - 1];
        match figures(y)
        case None => None
        case Some(f) =>
          Some(Record(t, y, f))
  }

  /** Stores one year's figures in the four dictionaries */
  function Record(t: YearTables, y: string, f: YearFigures): YearTables {
    YearTables(
      Put(t.salary, y, f.averageSalary),
      Put(t.count, y, f.count),
      Put(t.salaryProfession, y, f.averageProfession),
      Put(t.countProfession, y, f.countProfession))
  }

  /** One step of a successful fold */
  lemma {:induction false} FoldYearsStep(years: seq<string>, figures: string -> Option<YearFigures>)
    requires |years| > 0
    requires FoldYears(years, figures).Some?
    ensures FoldYears(years[..|years| - 1], figures).Some?
    ensures figures(years[|years| - 1]).Some?
    ensures FoldYears(years, figures).value ==
      Record(FoldYears(years[..|years| - 1], figures).value, years[|years| - 1], figures(years[|years| - 1]).value)
  {
  }

  /** A successful fold found every year's figures */
  lemma {:induction false} FoldYearsAllPresent(years: seq<string>, figures: string -> Option<YearFigures>, i: nat)
    requires FoldYears(years, figures).Some?
    requires i < |years|
    ensures figures(years[i]).Some?
  {
    FoldYearsStep(years, figures);
    if i < |years| - 1 {
      FoldYearsAllPresent(years[..|years| - 1], figures, i);
    }
  }

  /** The fold succeeds exactly when every year's figures exist */
  lemma {:induction false} FoldYearsSucceeds(years: seq<string>, figures: string -> Option<YearFigures>)
    ensures FoldYears(years, figures).Some? <==> forall i :: 0 <= i < |years| ==> figures(years[i]).Some?
  {
    if FoldYears(years, figures).Some? {
      forall i | 0 <= i < |years|
        ensures figures(years[i]).Some?
      {
        FoldYearsAllPresent(years, figures, i);
      }
    } else if forall i :: 0 <= i < |years| ==> figures(years[i]).Some? {
      FoldYearsAllSucceed(years, figures);
    }
  }

  /** Visiting the same years in another order or with repeats, as `keys`
      does, decides success the same way */
  lemma {:induction false} FoldYearsSucceedsOver(years: seq<string>, figures: string -> Option<YearFigures>, keys: seq<string>)
    requires forall k :: k in keys <==> k in years
    ensures FoldYears(years, figures).Some? <==> forall j :: 0 <= j < |keys| ==> figures(keys[j]).Some?
  {
    FoldYearsSucceeds(years, figures);
    if FoldYears(years, figures).Some? {
      forall j | 0 <= j < |keys|
        ensures figures(keys[j]).Some?
      {
        assert keys[j] in years;
        var i :| 0 <= i < |years| && years[i] == keys[j];
      }
    } else {
      var i :| 0 <= i < |years| && figures(years[i]).None?;
      assert years[i] in keys;
      var j :| 0 <= j < |keys| && keys[j] == years[i];
    }
  }

  /** If no year's figures are missing, the fold succeeds */
  lemma {:induction false} FoldYearsAllSucceed(years: seq<string>, figures: string -> Option<YearFigures>)
    requires forall i :: 0 <= i < |years| ==> figures(years[i]).Some?
    ensures FoldYears(years, figures).Some?
  {
    if |years| > 0 {
      var init := years[..|years| - 1];
      assert forall i :: 0 <= i < |init| ==> init[i] == years[i];
      FoldYearsAllSucceed(init, figures);
    }
  }

  /** A successful fold lists exactly `years`, in that order, in all four dictionaries */
  lemma {:induction false} FoldYearsKeys(years: seq<string>, figures: string -> Option<YearFigures>)
    requires Distinct(years)
    requires FoldYears(years, figures).Some?
    ensures SharedKeys(FoldYears(years, figures).value)
    ensures FoldYears(years, figures).value.salary.keys == years
  {
    if |years| > 0 {
      var init := years[..|years| - 1];
      var y := years[|years| - 1];
      FoldYearsStep(years, figures);
      FoldYearsKeys(init, figures);
      var t := FoldYears(init, figures).value;
      assert y !in t.salary.keys;
      assert years == init + [y];
    }
  }

  /** A successful fold holds each year's figures */
  lemma {:induction false} FoldYearsAt(years: seq<string>, figures: string -> Option<YearFigures>, y: string)
    requires Distinct(years)
    requires FoldYears(years, figures).Some?
    requires y in years
    ensures figures(y).Some?
    ensures var t := FoldYears(years, figures).value;
      && y in t.salary.values && y in t.count.values
      && y in t.salaryProfession.values && y in t.countProfession.values
      && t.salary.values[y] == figures(y).value.averageSalary
      && t.count.values[y] == figures(y).value.count
      && t.salaryProfession.values[y] == figures(y).value.averageProfession
      && t.countProfession.values[y] == figures(y).value.countProfession
  {
    var init := years[..|years| - 1];
    FoldYearsStep(years, figures);
    if years[|years| - 1] != y {
      assert y in init;
      FoldYearsAt(init, figures, y);
    }
  }

  /** The fold depends on `figures` only at the years it visits */
  lemma {:induction false} FoldYearsCongruent(years: seq<string>, f: string -> Option<YearFigures>, g: string -> Option<YearFigures>)
    requires forall i :: 0 <= i < |years| ==> f(years[i]) == g(years[i])
    ensures FoldYears(years, f) == FoldYears(years, g)
  {
    if |years| > 0 {
      FoldYearsCongruent(years[..|years| - 1], f, g);
    }
  }
}
