/** 343.py: the city report. The share and the average salary of the
    largest cities, and the yearly salary and count of one profession in
    one city. */
module CityReport {
  import opened Wrappers
  import opened Seqs
  import opened Text
  import opened Numbers
  import opened Dicts
  import opened Sorting
  import opened Records
  import opened Tally
  import opened CityFold

  /** The `area_name` column */
  function Areas(rows: seq<SalaryVacancy>): (r: seq<string>)
    ensures |r| == |rows|
    ensures forall i :: 0 <= i < |rows| ==> r[i] == rows[i].areaName
  {
    if |rows| == 0 then [] else Areas(rows[..|rows| - 1]) + [rows[|rows| - 1].areaName]
  }

  /** Number of rows of `city` */
  function CityCount(rows: seq<SalaryVacancy>, city: string): nat {
    multiset(Areas(rows))[city]
  }

  /** `round(v / total, 4)` */
  function Share(count: nat, total: nat): real
    requires total > 0
  {
    RoundTo4(count as real / total as real)
  }

  /** A city is kept when its share is strictly above this */
  const MinShare: real := 0.01

  /** `[(k, round(v / total, 4)) for k, v in cities_count.items()]` */
  function Shares(counts: seq<(string, nat)>, total: nat): (r: seq<(string, real)>)
    requires total > 0
    ensures |r| == |counts|
    ensures forall i :: 0 <= i < |r| ==> r[i].0 == counts[i].0 && r[i].1 == Share(counts[i].1, total)
  {
    seq(|counts|, i requires 0 <= i < |counts| => (counts[i].0, Share(counts[i].1, total)))
  }

  /** The share filter */
  predicate AboveMinShare(p: (string, real)) {
    p.1 > MinShare
  }

  /** `city_part`: the cities whose share exceeds 0.01, most frequent first.
      An empty table has no counts, so nothing is divided. */
  function CityPart(rows: seq<SalaryVacancy>): seq<(string, real)> {
    if |rows| == 0 then []
    else Filter(Shares(ValueCounts(Areas(rows)), |rows|), AboveMinShare)
  }

  /** `dict_part_city`: the first ten entries of `city_part` */
  function PartCity(rows: seq<SalaryVacancy>): seq<(string, real)> {
    Take(CityPart(rows), 10)
  }

  /** The rows of one city: a group of `groupby(['area_name'])` */
  function CityGroup(rows: seq<SalaryVacancy>, city: string): seq<SalaryVacancy> {
    Filter(rows, (v: SalaryVacancy) => v.areaName == city)
  }

  /** `round(data['salary'].mean())` for each city */
  function CitySalary(rows: seq<SalaryVacancy>): string -> Option<int> {
    c => RoundMean(Salaries(CityGroup(rows, c)))
  }

  /** `salary_by_city`: the groups in ascending city order, restricted to
      the cities of `city_part` */
  function SalaryByCity(rows: seq<SalaryVacancy>): Option<seq<(string, int)>> {
    CollectKept(SortedUnique(Areas(rows)), Keys(CityPart(rows)), CitySalary(rows))
  }

  /** The sort key of `dict_sal_city` */
  function SalaryKey(p: (string, int)): real {
    p.1 as real
  }

  /** `get_data_for_all_city`: `(dict_sal_city, dict_part_city)` */
  function GetDataForAllCity(rows: seq<SalaryVacancy>): Option<(seq<(string, int)>, seq<(string, real)>)> {
    match SalaryByCity(rows)
    case None => None
    case Some(salaries) => Some((Take(SortDesc(salaries, SalaryKey), 10), PartCity(rows)))
  }

  /** The kept cities are listed once each, and a city is kept exactly when
      it occurs and its share `round(count / total, 4)` exceeds 0.01 */
  lemma {:induction false} CityPartContents(rows: seq<SalaryVacancy>)
    ensures Distinct(Keys(CityPart(rows)))
    ensures forall c :: c in Keys(CityPart(rows)) <==>
      c in Areas(rows) && Share(CityCount(rows, c), |rows|) > MinShare
    ensures forall i :: 0 <= i < |CityPart(rows)| ==>
      |rows| > 0 && CityPart(rows)[i].1 == Share(CityCount(rows, CityPart(rows)[i].0), |rows|)
  {
    CityPartDistinct(rows);
    CityPartShares(rows);
    forall c
      ensures c in Keys(CityPart(rows)) <==> c in Areas(rows) && Share(CityCount(rows, c), |rows|) > MinShare
    {
      CityKept(rows, c);
    }
  }

  lemma {:induction false} CityPartDistinct(rows: seq<SalaryVacancy>)
    ensures Distinct(Keys(CityPart(rows)))
  {
    if |rows| > 0 {
      var sh := Shares(ValueCounts(Areas(rows)), |rows|);
      var part := CityPart(rows);
      var differentCity := (a: (string, real), b: (string, real)) => a.0 != b.0;
      SharesDistinct(rows);
      FilterKeepsOrder(sh, AboveMinShare, differentCity);
      forall i, j | 0 <= i < j < |part|
        ensures Keys(part)[i] != Keys(part)[j]
      {
        assert differentCity(part[i], part[j]);
      }
    }
  }

  /** The shares list every city once */
  lemma {:induction false} SharesDistinct(rows: seq<SalaryVacancy>)
    requires |rows| > 0
    ensures forall i, j :: 0 <= i < j < |Shares(ValueCounts(Areas(rows)), |rows|)| ==>
      Shares(ValueCounts(Areas(rows)), |rows|)[i].0 != Shares(ValueCounts(Areas(rows)), |rows|)[j].0
  {
    var vc := ValueCounts(Areas(rows));
    var sh := Shares(vc, |rows|);
    ValueCountsAt(Areas(rows));
    forall i, j | 0 <= i < j < |sh|
      ensures sh[i].0 != sh[j].0
    {
      assert sh[i].0 == vc[i].0 && sh[j].0 == vc[j].0;
    }
  }

  lemma {:induction false} CityPartShares(rows: seq<SalaryVacancy>)
    ensures forall i :: 0 <= i < |CityPart(rows)| ==>
      |rows| > 0 && CityPart(rows)[i].1 == Share(CityCount(rows, CityPart(rows)[i].0), |rows|)
  {
    if |rows| > 0 {
      var sh := Shares(ValueCounts(Areas(rows)), |rows|);
      var part := CityPart(rows);
      forall i | 0 <= i < |part|
        ensures part[i].1 == Share(CityCount(rows, part[i].0), |rows|)
      {
        assert part[i] in sh;
        SharesEntry(rows, part[i]);
      }
    } else {
      assert CityPart(rows) == [];
    }
  }

  /** Each share is its city's count over the number of rows, rounded */
  lemma {:induction false} SharesEntry(rows: seq<SalaryVacancy>, p: (string, real))
    requires |rows| > 0 && p in Shares(ValueCounts(Areas(rows)), |rows|)
    ensures p.1 == Share(CityCount(rows, p.0), |rows|)
  {
    var sh := Shares(ValueCounts(Areas(rows)), |rows|);
    var vc := ValueCounts(Areas(rows));
    ValueCountsAt(Areas(rows));
    var k :| 0 <= k < |sh| && sh[k] == p;
    assert sh[k].0 == vc[k].0;
    assert vc[k].1 == CityCount(rows, vc[k].0);
  }

  lemma {:induction false} CityKept(rows: seq<SalaryVacancy>, c: string)
    ensures c in Keys(CityPart(rows)) <==> c in Areas(rows) && Share(CityCount(rows, c), |rows|) > MinShare
  {
    if |rows| > 0 {
      if c in Keys(CityPart(rows)) {
        CityKeptListed(rows, c);
      }
      if c in Areas(rows) && Share(CityCount(rows, c), |rows|) > MinShare {
        CityKeptAbove(rows, c);
      }
    } else {
      assert CityPart(rows) == [];
    }
  }

  lemma {:induction false} CityKeptListed(rows: seq<SalaryVacancy>, c: string)
    requires |rows| > 0 && c in Keys(CityPart(rows))
    ensures c in Areas(rows) && Share(CityCount(rows, c), |rows|) > MinShare
  {
    var sh := Shares(ValueCounts(Areas(rows)), |rows|);
    FilterKeys(sh, AboveMinShare, c);
    var i :| 0 <= i < |sh| && sh[i].0 == c && AboveMinShare(sh[i]);
    SharesAt(rows, i);
  }

  lemma {:induction false} CityKeptAbove(rows: seq<SalaryVacancy>, c: string)
    requires |rows| > 0 && c in Areas(rows) && Share(CityCount(rows, c), |rows|) > MinShare
    ensures c in Keys(CityPart(rows))
  {
    var sh := Shares(ValueCounts(Areas(rows)), |rows|);
    var i := SharesHas(rows, c);
    SharesAt(rows, i);
    assert sh[i].0 == c && AboveMinShare(sh[i]);
    FilterKeys(sh, AboveMinShare, c);
  }

  /** Each share entry is a city of the table with its share */
  lemma {:induction false} SharesAt(rows: seq<SalaryVacancy>, i: nat)
    requires |rows| > 0 && i < |ValueCounts(Areas(rows))|
    ensures var sh := Shares(ValueCounts(Areas(rows)), |rows|);
      sh[i].0 in Areas(rows) && sh[i].1 == Share(CityCount(rows, sh[i].0), |rows|)
  {
    ValueCountsAt(Areas(rows));
  }

  /** Every city of the table has a share entry */
  lemma {:induction false} SharesHas(rows: seq<SalaryVacancy>, c: string) returns (i: nat)
    requires |rows| > 0 && c in Areas(rows)
    ensures i < |ValueCounts(Areas(rows))| && ValueCounts(Areas(rows))[i].0 == c
  {
    ValueCountsAt(Areas(rows));
    i :| 0 <= i < |ValueCounts(Areas(rows))| && ValueCounts(Areas(rows))[i].0 == c;
  }

  /** `city_part` is ordered by non-increasing row count, hence by
      non-increasing share */
  lemma {:induction false} CityPartOrdered(rows: seq<SalaryVacancy>)
    ensures forall i, j :: 0 <= i < j < |CityPart(rows)| ==>
      CityCount(rows, CityPart(rows)[i].0) >= CityCount(rows, CityPart(rows)[j].0)
    ensures forall i, j :: 0 <= i < j < |CityPart(rows)| ==> CityPart(rows)[i].1 >= CityPart(rows)[j].1
  {
    if |rows| > 0 {
      var n := |rows|;
      var vc := ValueCounts(Areas(rows));
      ValueCountsAt(Areas(rows));
      var sh := Shares(vc, n);
      var part := CityPart(rows);
      var moreFrequent := (a: (string, real), b: (string, real)) => CityCount(rows, a.0) >= CityCount(rows, b.0);
      FilterKeepsOrder(sh, AboveMinShare, moreFrequent);
      CityPartContents(rows);
      forall i, j | 0 <= i < j < |part|
        ensures CityCount(rows, part[i].0) >= CityCount(rows, part[j].0)
        ensures part[i].1 >= part[j].1
      {
        assert moreFrequent(part[i], part[j]);
        ShareMonotone(CityCount(rows, part[j].0), CityCount(rows, part[i].0), n);
      }
    }
  }

  /** A larger count never has a smaller share */
  lemma {:induction false} ShareMonotone(a: nat, b: nat, total: nat)
    requires total > 0 && a <= b
    ensures Share(a, total) <= Share(b, total)
  {
    assert a as real / total as real <= b as real / total as real;
    RoundTo4Monotone(a as real / total as real, b as real / total as real);
  }

  /** `dict_part_city` holds at most ten kept cities, the most frequent ones:
      a kept city left out means all ten places went to cities at least as
      frequent */
  lemma {:induction false} PartCityTop(rows: seq<SalaryVacancy>)
    ensures |PartCity(rows)| <= 10
    ensures forall i :: 0 <= i < |PartCity(rows)| ==> PartCity(rows)[i] == CityPart(rows)[i]
    ensures forall p :: p in CityPart(rows) && p !in PartCity(rows) ==>
      |PartCity(rows)| == 10 &&
      forall i :: 0 <= i < 10 ==> CityCount(rows, PartCity(rows)[i].0) >= CityCount(rows, p.0)
  {
    var part := CityPart(rows);
    CityPartOrdered(rows);
    var key := (p: (string, real)) => CityCount(rows, p.0) as real;
    assert NonIncreasing(part, key);
    forall p | p in part && p !in PartCity(rows)
      ensures |PartCity(rows)| == 10
      ensures forall i :: 0 <= i < 10 ==> CityCount(rows, PartCity(rows)[i].0) >= CityCount(rows, p.0)
    {
      TopOfSorted(part, key, 10, p);
      forall i | 0 <= i < 10
        ensures CityCount(rows, PartCity(rows)[i].0) >= CityCount(rows, p.0)
      {
        assert key(Take(part, 10)[i]) >= key(p);
      }
    }
  }

  /** `salary_by_city` fails exactly when a kept city has no salary at all */
  lemma {:induction false} SalaryByCitySucceeds(rows: seq<SalaryVacancy>)
    ensures SalaryByCity(rows).Some? <==>
      forall c :: c in Keys(CityPart(rows)) ==> CountPresent(Salaries(CityGroup(rows, c))) > 0
  {
    var cities := SortedUnique(Areas(rows));
    var kept := Keys(CityPart(rows));
    CollectKeptSucceeds(cities, kept, CitySalary(rows));
    if SalaryByCity(rows).Some? {
      forall c | c in kept
        ensures CountPresent(Salaries(CityGroup(rows, c))) > 0
      {
        KeptCityHasSalary(rows, c);
      }
    } else {
      var c := KeptCityLacksSalary(rows);
    }
  }

  /** A failed run has a kept city without any salary */
  lemma {:induction false} KeptCityLacksSalary(rows: seq<SalaryVacancy>) returns (c: string)
    requires SalaryByCity(rows).None?
    ensures c in Keys(CityPart(rows)) && CountPresent(Salaries(CityGroup(rows, c))) == 0
  {
    var cities := SortedUnique(Areas(rows));
    var kept := Keys(CityPart(rows));
    CollectKeptSucceeds(cities, kept, CitySalary(rows));
    var i :| 0 <= i < |cities| && cities[i] in kept && CitySalary(rows)(cities[i]).None?;
    c := cities[i];
  }

  /** In a successful run every kept city has a salary */
  lemma {:induction false} KeptCityHasSalary(rows: seq<SalaryVacancy>, c: string)
    requires SalaryByCity(rows).Some? && c in Keys(CityPart(rows))
    ensures CountPresent(Salaries(CityGroup(rows, c))) > 0
  {
    var cities := SortedUnique(Areas(rows));
    var kept := Keys(CityPart(rows));
    CollectKeptSucceeds(cities, kept, CitySalary(rows));
    CityKept(rows, c);
    var i :| 0 <= i < |cities| && cities[i] == c;
    assert CitySalary(rows)(cities[i]).Some?;
  }

  /** `salary_by_city` lists exactly the kept cities, in ascending order,
      each with the rounded mean salary of its rows */
  lemma {:induction false} SalaryByCityContents(rows: seq<SalaryVacancy>)
    requires SalaryByCity(rows).Some?
    ensures StrictlyAscending(Keys(SalaryByCity(rows).value))
    ensures forall c :: c in Keys(SalaryByCity(rows).value) <==> c in Keys(CityPart(rows))
    ensures forall i :: 0 <= i < |SalaryByCity(rows).value| ==>
      Some(SalaryByCity(rows).value[i].1) == RoundMean(Salaries(CityGroup(rows, SalaryByCity(rows).value[i].0)))
  {
    SalaryByCityOrdered(rows);
    SalaryByCityValues(rows);
    forall c
      ensures c in Keys(SalaryByCity(rows).value) <==> c in Keys(CityPart(rows))
    {
      SalaryByCityHas(rows, c);
    }
  }

  lemma {:induction false} SalaryByCityOrdered(rows: seq<SalaryVacancy>)
    requires SalaryByCity(rows).Some?
    ensures StrictlyAscending(Keys(SalaryByCity(rows).value))
  {
    var cities := SortedUnique(Areas(rows));
    var kept := Keys(CityPart(rows));
    CollectKeptContents(cities, kept, CitySalary(rows));
    KeptCitiesOrdered(cities, kept);
  }

  lemma {:induction false} SalaryByCityValues(rows: seq<SalaryVacancy>)
    requires SalaryByCity(rows).Some?
    ensures forall i :: 0 <= i < |SalaryByCity(rows).value| ==>
      Some(SalaryByCity(rows).value[i].1) == RoundMean(Salaries(CityGroup(rows, SalaryByCity(rows).value[i].0)))
  {
    CollectKeptContents(SortedUnique(Areas(rows)), Keys(CityPart(rows)), CitySalary(rows));
  }

  /** The kept cities stay in ascending order */
  lemma {:induction false} KeptCitiesOrdered(cities: seq<string>, kept: seq<string>)
    requires StrictlyAscending(cities)
    ensures StrictlyAscending(KeptCities(cities, kept))
  {
    FilterKeepsOrder(cities, (c: string) => c in kept, LexLess);
  }

  lemma {:induction false} SalaryByCityHas(rows: seq<SalaryVacancy>, c: string)
    requires SalaryByCity(rows).Some?
    ensures c in Keys(SalaryByCity(rows).value) <==> c in Keys(CityPart(rows))
  {
    var cities := SortedUnique(Areas(rows));
    var kept := Keys(CityPart(rows));
    CollectKeptContents(cities, kept, CitySalary(rows));
    KeptCitiesHas(cities, kept, c);
    CityKept(rows, c);
  }

  /** `dict_sal_city`: at most ten cities of `salary_by_city`, best paid
      first; a city left out means all ten places went to cities paid at
      least as well */
  lemma {:induction false} SalaryCityTop(rows: seq<SalaryVacancy>)
    requires GetDataForAllCity(rows).Some?
    ensures var top := GetDataForAllCity(rows).value.0;
      && |top| <= 10
      && (forall i, j :: 0 <= i < j < |top| ==> top[i].1 >= top[j].1)
      && (forall p :: p in top ==> p in SalaryByCity(rows).value)
      && (forall p :: p in SalaryByCity(rows).value && p !in top ==>
            |top| == 10 && forall i :: 0 <= i < 10 ==> top[i].1 >= p.1)
  {
    var salaries := SalaryByCity(rows).value;
    var sorted := SortDesc(salaries, SalaryKey);
    var top := GetDataForAllCity(rows).value.0;
    assert top == Take(sorted, 10);
    forall p | p in top
      ensures p in salaries
    {
      assert p in multiset(sorted);
    }
    forall i, j | 0 <= i < j < |top|
      ensures top[i].1 >= top[j].1
    {
      assert SalaryKey(sorted[i]) >= SalaryKey(sorted[j]);
    }
    forall p | p in salaries && p !in top
      ensures |top| == 10 && forall i :: 0 <= i < 10 ==> top[i].1 >= p.1
    {
      assert p in multiset(sorted);
      TopOfSorted(sorted, SalaryKey, 10, p);
      forall i | 0 <= i < 10
        ensures top[i].1 >= p.1
      {
        assert SalaryKey(top[i]) >= SalaryKey(p);
      }
    }
  }

  /** `get_data_for_one`'s row selection: the profession, matched
      case-insensitively, in exactly the city `area` */
  predicate SelectsRow(v: SalaryVacancy, profession: string, area: string) {
    MatchesProfession(v, profession) && v.areaName == area
  }

  function SelectRows(rows: seq<SalaryVacancy>, profession: string, area: string): seq<SalaryVacancy> {
    Filter(rows, (v: SalaryVacancy) => SelectsRow(v, profession, area))
  }

  /** A selected row is a row of the table that matches; every matching row
      is selected; the order is kept */
  lemma {:induction false} SelectRowsSpec(rows: seq<SalaryVacancy>, profession: string, area: string)
    ensures forall v :: v in SelectRows(rows, profession, area) <==> v in rows && SelectsRow(v, profession, area)
    ensures IsSubsequence(SelectRows(rows, profession, area), rows)
  {
    FilterIsSubsequence(rows, (v: SalaryVacancy) => SelectsRow(v, profession, area));
  }

  /** The body of the loop for one year's group: `round` of a NaN mean raises */
  function GroupSalaryCount(group: seq<SalaryVacancy>): (r: Option<SalaryCount>)
    ensures r.Some? <==> CountPresent(Salaries(group)) > 0
    ensures r.Some? ==> r.value.count == |group| && Some(r.value.salary) == RoundMean(Salaries(group))
  {
    match RoundMean(Salaries(group))
    case None => None
    case Some(m) => Some(SalaryCount(m, |group|))
  }

  /** One year's salary and count over the selected rows */
  function YearSalaryCount(data: seq<SalaryVacancy>): string -> Option<SalaryCount> {
    y => GroupSalaryCount(GroupOf(data, y))
  }

  /** The loop of `get_data_for_one` over `groupby(['year'])` of the
      selected rows `data` */
  function SalaryCountByYear(data: seq<SalaryVacancy>): Option<(ODict<string, int>, ODict<string, int>)> {
    FoldSalaryCount(SortedUnique(RowYears(data)), YearSalaryCount(data))
  }

  /** `get_data_for_one`: `(salary_prof, count)` */
  function GetDataForOne(rows: seq<SalaryVacancy>, profession: string, area: string): Option<(ODict<string, int>, ODict<string, int>)> {
    SalaryCountByYear(SelectRows(rows, profession, area))
  }

  /** The loop fails exactly when some year of the selected rows has no salary */
  lemma {:induction false} SalaryCountByYearSucceeds(data: seq<SalaryVacancy>)
    ensures SalaryCountByYear(data).Some? <==>
      forall j :: 0 <= j < |data| ==> CountPresent(Salaries(GroupOf(data, YearOf(data[j].publishedAt)))) > 0
  {
    var keys := RowYears(data);
    FoldSalaryCountSucceeds(SortedUnique(keys), YearSalaryCount(data), keys);
    forall j | 0 <= j < |data|
      ensures YearSalaryCount(data)(keys[j]).Some? <==>
        CountPresent(Salaries(GroupOf(data, YearOf(data[j].publishedAt)))) > 0
    {
      assert keys[j] == YearOf(data[j].publishedAt);
    }
  }

  /** Both dictionaries list the years of the selected rows, once each and
      in ascending order; `count[y]` is the size of the year's group and
      `salary_prof[y]` its rounded mean salary */
  lemma {:induction false} SalaryCountByYearContents(data: seq<SalaryVacancy>, y: string)
    requires SalaryCountByYear(data).Some?
    ensures Valid(SalaryCountByYear(data).value.0) && Valid(SalaryCountByYear(data).value.1)
    ensures SalaryCountByYear(data).value.1.keys == SalaryCountByYear(data).value.0.keys
    ensures StrictlyAscending(SalaryCountByYear(data).value.0.keys)
    ensures y in SalaryCountByYear(data).value.0.keys <==> y in RowYears(data)
    ensures y in SalaryCountByYear(data).value.0.keys ==>
      && y in SalaryCountByYear(data).value.0.values && y in SalaryCountByYear(data).value.1.values
      && SalaryCountByYear(data).value.1.values[y] == |GroupOf(data, y)|
      && Some(SalaryCountByYear(data).value.0.values[y]) == RoundMean(Salaries(GroupOf(data, y)))
  {
    var years := SortedUnique(RowYears(data));
    AscendingDistinct(years);
    FoldSalaryCountKeys(years, YearSalaryCount(data));
    if y in years {
      FoldSalaryCountAt(years, YearSalaryCount(data), y);
    }
  }

  /** One row `[year, salary, count]` of the `years_and_area` table */
  datatype AreaRow = AreaRow(year: string, salary: int, count: int)

  /** `years_and_area`: one row per key of `count`, in key order */
  function YearsAndArea(salaryProfession: ODict<string, int>, count: ODict<string, int>): (r: seq<AreaRow>)
    requires forall k :: k in count.keys ==> k in count.values && k in salaryProfession.values
    ensures |r| == |count.keys|
    ensures forall i :: 0 <= i < |r| ==>
      && r[i].year == count.keys[i]
      && r[i].salary == salaryProfession.values[count.keys[i]]
      && r[i].count == count.values[count.keys[i]]
  {
    seq(|count.keys|, i requires 0 <= i < |count.keys| =>
      AreaRow(count.keys[i], salaryProfession.values[count.keys[i]], count.values[count.keys[i]]))
  }

  /** `make_pdf`'s per-year table over the selected rows: fails where
      `get_data_for_one` raises */
  function AreaTable(data: seq<SalaryVacancy>): (r: Option<seq<AreaRow>>)
    ensures r.Some? <==> SalaryCountByYear(data).Some?
  {
    match SalaryCountByYear(data)
    case None => None
    case Some(t) =>
      SalaryCountByYearContents(data, "");
      Some(YearsAndArea(t.0, t.1))
  }

  /** `make_pdf`'s per-year table for a profession in a city */
  function AreaReport(rows: seq<SalaryVacancy>, profession: string, area: string): Option<seq<AreaRow>> {
    AreaTable(SelectRows(rows, profession, area))
  }

  /** The table has one row per year of the selected rows, in ascending year
      order, each carrying the year's rounded mean salary and group size */
  lemma {:induction false} AreaTableRows(data: seq<SalaryVacancy>)
    requires AreaTable(data).Some?
    ensures forall i, j :: 0 <= i < j < |AreaTable(data).value| ==>
      LexLess(AreaTable(data).value[i].year, AreaTable(data).value[j].year)
    ensures forall y :: y in RowYears(data) <==> exists i :: 0 <= i < |AreaTable(data).value| && AreaTable(data).value[i].year == y
    ensures forall i :: 0 <= i < |AreaTable(data).value| ==>
      && AreaTable(data).value[i].count == |GroupOf(data, AreaTable(data).value[i].year)|
      && Some(AreaTable(data).value[i].salary) == RoundMean(Salaries(GroupOf(data, AreaTable(data).value[i].year)))
  {
    AreaTableOrdered(data);
    forall y
      ensures y in RowYears(data) <==> exists i :: 0 <= i < |AreaTable(data).value| && AreaTable(data).value[i].year == y
    {
      AreaTableHasYear(data, y);
    }
    forall i | 0 <= i < |AreaTable(data).value|
      ensures AreaTable(data).value[i].count == |GroupOf(data, AreaTable(data).value[i].year)|
      ensures Some(AreaTable(data).value[i].salary) == RoundMean(Salaries(GroupOf(data, AreaTable(data).value[i].year)))
    {
      AreaTableRow(data, i);
    }
  }

  lemma {:induction false} AreaTableOrdered(data: seq<SalaryVacancy>)
    requires AreaTable(data).Some?
    ensures forall i, j :: 0 <= i < j < |AreaTable(data).value| ==>
      LexLess(AreaTable(data).value[i].year, AreaTable(data).value[j].year)
  {
    var t := SalaryCountByYear(data).value;
    SalaryCountByYearContents(data, "");
    assert AreaTable(data).value == YearsAndArea(t.0, t.1);
  }

  lemma {:induction false} AreaTableRow(data: seq<SalaryVacancy>, i: nat)
    requires AreaTable(data).Some?
    requires i < |AreaTable(data).value|
    ensures AreaTable(data).value[i].count == |GroupOf(data, AreaTable(data).value[i].year)|
    ensures Some(AreaTable(data).value[i].salary) == RoundMean(Salaries(GroupOf(data, AreaTable(data).value[i].year)))
  {
    var t := SalaryCountByYear(data).value;
    SalaryCountByYearContents(data, "");
    var st := AreaTable(data).value;
    assert st == YearsAndArea(t.0, t.1);
    var y := t.1.keys[i];
    assert st[i].year == y;
    SalaryCountByYearContents(data, y);
  }

  lemma {:induction false} AreaTableHasYear(data: seq<SalaryVacancy>, y: string)
    requires AreaTable(data).Some?
    ensures y in RowYears(data) <==> exists i :: 0 <= i < |AreaTable(data).value| && AreaTable(data).value[i].year == y
  {
    var t := SalaryCountByYear(data).value;
    var st := AreaTable(data).value;
    SalaryCountByYearContents(data, y);
    assert st == YearsAndArea(t.0, t.1);
    if y in t.1.keys {
      var i :| 0 <= i < |t.1.keys| && t.1.keys[i] == y;
      assert st[i].year == y;
    }
  }
}
