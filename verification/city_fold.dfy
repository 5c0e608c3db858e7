/** The two loops of 343.py taken apart from how each group's figures are
    computed: the salary of each kept city, and the per-year salary and
    count of the selected rows. */
module CityFold {
  import opened Wrappers
  import opened Seqs
  import opened Dicts

  /** `{c: salary(c) for c in cities if c in kept}`, evaluated in order;
      a missing salary (`round` of NaN) ends the loop */
  function CollectKept(cities: seq<string>, kept: seq<string>, salary: string -> Option<int>): Option<seq<(string, int)>>
  {
    if |cities| == 0 then Some([])
    else
      match CollectKept(cities[..|cities| - 1], kept, salary)
      case None => None
      case Some(acc) =>
        var c := cities[|cities| - 1];
        if c !in kept then Some(acc)
        else
          match salary(c)
          case None => None
          case Some(m) => Some(acc + [(c, m)])
  }

  /** The kept cities, in the order visited */
  function KeptCities(cities: seq<string>, kept: seq<string>): seq<string> {
    Filter(cities, (c: string) => c in kept)
  }

  /** The loop succeeds exactly when every kept city has a salary */
  lemma {:induction false} CollectKeptSucceeds(cities: seq<string>, kept: seq<string>, salary: string -> Option<int>)
    ensures CollectKept(cities, kept, salary).Some? <==>
      forall i :: 0 <= i < |cities| && cities[i] in kept ==> salary(cities[i]).Some?
  {
    if |cities| > 0 {
      var init := cities[..|cities| - 1];
      CollectKeptSucceeds(init, kept, salary);
      assert forall i :: 0 <= i < |init| ==> init[i] == cities[i];
      if CollectKept(init, kept, salary).None? {
        var i :| 0 <= i < |init| && init[i] in kept && salary(init[i]).None?;
        assert cities[i] == init[i];
      }
    }
  }

  /** A successful loop lists the kept cities in visiting order, each with
      its salary */
  lemma {:induction false} CollectKeptContents(cities: seq<string>, kept: seq<string>, salary: string -> Option<int>)
    requires CollectKept(cities, kept, salary).Some?
    ensures Keys(CollectKept(cities, kept, salary).value) == KeptCities(cities, kept)
    ensures forall i :: 0 <= i < |CollectKept(cities, kept, salary).value| ==>
      salary(CollectKept(cities, kept, salary).value[i].0) == Some(CollectKept(cities, kept, salary).value[i].1)
  {
    if |cities| > 0 {
      var init := cities[..|cities| - 1];
      var c := cities[|cities| - 1];
      assert CollectKept(init, kept, salary).Some?;
      CollectKeptContents(init, kept, salary);
      var acc := CollectKept(init, kept, salary).value;
      var r := CollectKept(cities, kept, salary).value;
      if c in kept {
        assert r == acc + [(c, salary(c).value)];
        assert Keys(r) == Keys(acc) + [c];
      } else {
        assert r == acc;
      }
    }
  }

  /** A city is visited as kept exactly when it is both listed and kept */
  lemma {:induction false} KeptCitiesHas(cities: seq<string>, kept: seq<string>, c: string)
    ensures c in KeptCities(cities, kept) <==> c in cities && c in kept
  {
    if c in cities && c in kept {
      var i :| 0 <= i < |cities| && cities[i] == c;
      assert cities[i] in KeptCities(cities, kept);
    }
  }

  /** The figures of one year of the selected rows */
  datatype SalaryCount = SalaryCount(salary: int, count: nat)

  /** The loop of `get_data_for_one` over the year groups in the order `years` */
  function FoldSalaryCount(years: seq<string>, figures: string -> Option<SalaryCount>): Option<(ODict<string, int>, ODict<string, int>)>
  {
    if |years| == 0 then Some((Empty(), Empty()))
    else
      match FoldSalaryCount(years[..|years| - 1], figures)
      case None => None
      case Some(t) =>
        var y := years[|years| - 1];
        match figures(y)
        case None => None
        case Some(f) => Some((Put(t.0, y, f.salary), Put(t.1, y, f.count)))
  }

  /** One step of a successful fold */
  lemma {:induction false} FoldSalaryCountStep(years: seq<string>, figures: string -> Option<SalaryCount>)
    requires |years| > 0
    requires FoldSalaryCount(years, figures).Some?
    ensures FoldSalaryCount(years[..|years| - 1], figures).Some?
    ensures figures(years[|years| - 1]).Some?
    ensures var t := FoldSalaryCount(years[..|years| - 1], figures).value;
      var y := years[|years| - 1];
      var f := figures(y).value;
      FoldSalaryCount(years, figures).value == (Put(t.0, y, f.salary), Put(t.1, y, f.count))
  {
  }

  /** A successful fold found every year's figures */
  lemma {:induction false} FoldSalaryCountAllPresent(years: seq<string>, figures: string -> Option<SalaryCount>, i: nat)
    requires FoldSalaryCount(years, figures).Some?
    requires i < |years|
    ensures figures(years[i]).Some?
  {
    FoldSalaryCountStep(years, figures);
    if i < |years| - 1 {
      FoldSalaryCountAllPresent(years[..|years| - 1], figures, i);
    }
  }

  /** If no year's figures are missing, the fold succeeds */
  lemma {:induction false} FoldSalaryCountAllSucceed(years: seq<string>, figures: string -> Option<SalaryCount>)
    requires forall i :: 0 <= i < |years| ==> figures(years[i]).Some?
    ensures FoldSalaryCount(years, figures).Some?
  {
    if |years| > 0 {
      var init := years[..|years| - 1];
      assert forall i :: 0 <= i < |init| ==> init[i] == years[i];
      FoldSalaryCountAllSucceed(init, figures);
    }
  }

  /** The fold succeeds exactly when every year visited, listed in any order
      by `keys`, has its figures */
  lemma {:induction false} FoldSalaryCountSucceeds(years: seq<string>, figures: string -> Option<SalaryCount>, keys: seq<string>)
    requires forall k :: k in keys <==> k in years
    ensures FoldSalaryCount(years, figures).Some? <==> forall j :: 0 <= j < |keys| ==> figures(keys[j]).Some?
  {
    if FoldSalaryCount(years, figures).Some? {
      forall j | 0 <= j < |keys|
        ensures figures(keys[j]).Some?
      {
        assert keys[j] in years;
        var i :| 0 <= i < |years| && years[i] == keys[j];
        FoldSalaryCountAllPresent(years, figures, i);
      }
    } else if forall j :: 0 <= j < |keys| ==> figures(keys[j]).Some? {
      forall i | 0 <= i < |years|
        ensures figures(years[i]).Some?
      {
        assert years[i] in keys;
        var j :| 0 <= j < |keys| && keys[j] == years[i];
      }
      FoldSalaryCountAllSucceed(years, figures);
    }
  }

  /** A successful fold lists exactly `years`, in that order, in both dictionaries */
  lemma {:induction false} FoldSalaryCountKeys(years: seq<string>, figures: string -> Option<SalaryCount>)
    requires Distinct(years)
    requires FoldSalaryCount(years, figures).Some?
    ensures Valid(FoldSalaryCount(years, figures).value.0) && Valid(FoldSalaryCount(years, figures).value.1)
    ensures FoldSalaryCount(years, figures).value.0.keys == years
    ensures FoldSalaryCount(years, figures).value.1.keys == years
  {
    if |years| > 0 {
      var init := years[..|years| - 1];
      var y := years[|years| - 1];
      FoldSalaryCountStep(years, figures);
      FoldSalaryCountKeys(init, figures);
      var t := FoldSalaryCount(init, figures).value;
      assert y !in t.0.keys;
      assert years == init + [y];
    }
  }

  /** A successful fold holds each year's salary and count */
  lemma {:induction false} FoldSalaryCountAt(years: seq<string>, figures: string -> Option<SalaryCount>, y: string)
    requires FoldSalaryCount(years, figures).Some?
    requires y in years
    ensures figures(y).Some?
    ensures y in FoldSalaryCount(years, figures).value.0.values
    ensures y in FoldSalaryCount(years, figures).value.1.values
    ensures FoldSalaryCount(years, figures).value.0.values[y] == figures(y).value.salary
    ensures FoldSalaryCount(years, figures).value.1.values[y] == figures(y).value.count
  {
    var init := years[..|years| - 1];
    FoldSalaryCountStep(years, figures);
    if years[|years| - 1] != y {
      assert y in init;
      FoldSalaryCountAt(init, figures, y);
    }
  }
}
