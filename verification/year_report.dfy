/** 342.py: yearly statistics of a converted vacancy table for one
    profession, grouped by `published_at[:4]` in ascending year order. */
module YearReport {
  import opened Wrappers
  import opened Seqs
  import opened Text
  import opened Numbers
  import opened Dicts
  import opened Sorting
  import opened Records
  import opened YearFold

  /** The rows of one profession: `name.str.contains(profession, case=False)` */
  function ProfessionRows(rows: seq<SalaryVacancy>, profession: string): seq<SalaryVacancy> {
    Filter(rows, (v: SalaryVacancy) => MatchesProfession(v, profession))
  }

  /** `get_analitic_by_year`: fails when either mean is NaN */
  function AnaliticByYear(group: seq<SalaryVacancy>, profession: string): (r: Option<YearFigures>)
    ensures r.Some? <==>
      CountPresent(Salaries(group)) > 0 && CountPresent(Salaries(ProfessionRows(group, profession))) > 0
    ensures r.Some? ==> r.value.count == |group| && r.value.countProfession <= r.value.count
  {
    var prof := ProfessionRows(group, profession);
    var average := RoundMean(Salaries(group));
    var averageProfession := RoundMean(Salaries(prof));
    if average.None? || averageProfession.None? then None
    else Some(YearFigures(|group|, average.value, |prof|, averageProfession.value))
  }

  /** Each year's figures over the table `rows` */
  function Figures(rows: seq<SalaryVacancy>, profession: string): string -> Option<YearFigures> {
    y => AnaliticByYear(GroupOf(rows, y), profession)
  }

  /** The four figures of a year that has them */
  lemma {:induction false} FiguresValues(group: seq<SalaryVacancy>, profession: string)
    requires AnaliticByYear(group, profession).Some?
    ensures var f := AnaliticByYear(group, profession).value;
      && f.count == |group|
      && f.countProfession == |ProfessionRows(group, profession)| <= |group|
      && Some(f.averageSalary) == RoundMean(Salaries(group))
      && Some(f.averageProfession) == RoundMean(Salaries(ProfessionRows(group, profession)))
  {
  }

  /** `get_file_analytic` */
  function GetFileAnalytic(rows: seq<SalaryVacancy>, profession: string): Option<YearTables> {
    FoldYears(SortedUnique(RowYears(rows)), Figures(rows, profession))
  }

  /** Both means of a group are defined */
  ghost predicate HasSalaries(g: seq<SalaryVacancy>, profession: string) {
    CountPresent(Salaries(g)) > 0 && CountPresent(Salaries(ProfessionRows(g, profession))) > 0
  }

  /** The run fails exactly when some year lacks a salary, overall or for the
      profession (`round` of a NaN mean raises) */
  lemma {:induction false} FileAnalyticSucceeds(rows: seq<SalaryVacancy>, profession: string)
    ensures GetFileAnalytic(rows, profession).Some? <==>
      forall j :: 0 <= j < |rows| ==> HasSalaries(GroupOf(rows, YearOf(rows[j].publishedAt)), profession)
  {
    var keys := RowYears(rows);
    var figures := Figures(rows, profession);
    FoldYearsSucceedsOver(SortedUnique(keys), figures, keys);
    forall j | 0 <= j < |rows|
      ensures figures(keys[j]).Some? <==> HasSalaries(GroupOf(rows, YearOf(rows[j].publishedAt)), profession)
    {
      assert keys[j] == YearOf(rows[j].publishedAt);
    }
  }

  /** One entry per distinct year, in ascending year order, the same keys in
      all four dictionaries */
  lemma {:induction false} FileAnalyticKeys(rows: seq<SalaryVacancy>, profession: string)
    requires GetFileAnalytic(rows, profession).Some?
    ensures var t := GetFileAnalytic(rows, profession).value;
      && SharedKeys(t)
      && StrictlyAscending(t.salary.keys)
      && (forall y :: y in t.salary.keys <==> y in RowYears(rows))
  {
    var years := SortedUnique(RowYears(rows));
    AscendingDistinct(years);
    FoldYearsKeys(years, Figures(rows, profession));
  }

  /** A year's count is its group's size, the profession count is at most
      that, and the averages are the rounded means over the group and over
      its profession subset */
  lemma {:induction false} FileAnalyticAt(rows: seq<SalaryVacancy>, profession: string, y: string)
    requires GetFileAnalytic(rows, profession).Some?
    requires y in RowYears(rows)
    ensures var t := GetFileAnalytic(rows, profession).value;
      var g := GroupOf(rows, y);
      && y in t.count.values && y in t.countProfession.values
      && y in t.salary.values && y in t.salaryProfession.values
      && t.count.values[y] == |g|
      && t.countProfession.values[y] == |ProfessionRows(g, profession)| <= |g|
      && Some(t.salary.values[y]) == RoundMean(Salaries(g))
      && Some(t.salaryProfession.values[y]) == RoundMean(Salaries(ProfessionRows(g, profession)))
  {
    var years := SortedUnique(RowYears(rows));
    assert y in years;
    AscendingDistinct(years);
    FoldYearsAt(years, Figures(rows, profession), y);
    FiguresValues(GroupOf(rows, y), profession);
  }

  /** Matching depends on the profession only through its lower-case form */
  lemma {:induction false} ProfessionRowsIgnoreCase(rows: seq<SalaryVacancy>, p: string, q: string)
    requires Lower(p) == Lower(q)
    ensures ProfessionRows(rows, p) == ProfessionRows(rows, q)
  {
    if |rows| > 0 {
      ProfessionRowsIgnoreCase(rows[..|rows| - 1], p, q);
    }
  }

  /** The script lower-cases the profession it reads; with `case=False` this
      changes nothing, and any two spellings differing only in case give the
      same statistics */
  lemma {:induction false} FileAnalyticIgnoresCase(rows: seq<SalaryVacancy>, p: string, q: string)
    requires Lower(p) == Lower(q)
    ensures GetFileAnalytic(rows, p) == GetFileAnalytic(rows, q)
    ensures GetFileAnalytic(rows, Lower(p)) == GetFileAnalytic(rows, p)
  {
    var years := SortedUnique(RowYears(rows));
    LowerIdempotent(p);
    forall i | 0 <= i < |years|
      ensures Figures(rows, p)(years[i]) == Figures(rows, q)(years[i])
      ensures Figures(rows, Lower(p))(years[i]) == Figures(rows, p)(years[i])
    {
      ProfessionRowsIgnoreCase(GroupOf(rows, years[i]), p, q);
      ProfessionRowsIgnoreCase(GroupOf(rows, years[i]), Lower(p), p);
    }
    FoldYearsCongruent(years, Figures(rows, p), Figures(rows, q));
    FoldYearsCongruent(years, Figures(rows, Lower(p)), Figures(rows, p));
  }

  /** One row `[year, salary, prof_salary, count, prof_count]` of the PDF table */
  datatype StatRow = StatRow(year: string, salary: int, salaryProfession: int, count: int, countProfession: int)

  /** `statistic` in `make_pdf`: one row per key of the salary dictionary */
  function Statistic(t: YearTables): (r: seq<StatRow>)
    requires SharedKeys(t)
    ensures |r| == |t.salary.keys|
    ensures forall i :: 0 <= i < |r| ==> r[i].year == t.salary.keys[i]
  {
    var ks := t.salary.keys;
    seq(|ks|, i requires 0 <= i < |ks| =>
      StatRow(ks[i], t.salary.values[ks[i]], t.salaryProfession.values[ks[i]],
              t.count.values[ks[i]], t.countProfession.values[ks[i]]))
  }

  /** `make_pdf`'s table: fails where `get_file_analytic` raises */
  function Report(rows: seq<SalaryVacancy>, profession: string): (r: Option<seq<StatRow>>)
    ensures r.Some? <==> GetFileAnalytic(rows, profession).Some?
  {
    match GetFileAnalytic(rows, profession)
    case None => None
    case Some(t) =>
      FileAnalyticKeys(rows, profession);
      Some(Statistic(t))
  }

  /** The table lists the salary dictionary's keys in their order */
  lemma {:induction false} StatisticYears(t: YearTables, y: string)
    requires SharedKeys(t)
    ensures var st := Statistic(t);
      && (StrictlyAscending(t.salary.keys) ==> forall i, j :: 0 <= i < j < |st| ==> LexLess(st[i].year, st[j].year))
      && (y in t.salary.keys <==> exists i :: 0 <= i < |st| && st[i].year == y)
  {
    var st := Statistic(t);
    if y in t.salary.keys {
      var i :| 0 <= i < |t.salary.keys| && t.salary.keys[i] == y;
      assert st[i].year == y;
    }
  }

  /** The table has one row per year of the data, in ascending year order */
  lemma {:induction false} ReportYears(rows: seq<SalaryVacancy>, profession: string)
    requires Report(rows, profession).Some?
    ensures var st := Report(rows, profession).value;
      && (forall i, j :: 0 <= i < j < |st| ==> LexLess(st[i].year, st[j].year))
      && (forall y :: y in RowYears(rows) <==> exists i :: 0 <= i < |st| && st[i].year == y)
  {
    FileAnalyticKeys(rows, profession);
    var t := GetFileAnalytic(rows, profession).value;
    var st := Report(rows, profession).value;
    assert st == Statistic(t);
    forall y
      ensures y in RowYears(rows) <==> exists i :: 0 <= i < |st| && st[i].year == y
    {
      StatisticYears(t, y);
    }
    StatisticYears(t, "");
  }

  /** Each row carries its year's four figures, in the column order
      year, salary, profession salary, count, profession count */
  lemma {:induction false} ReportRow(rows: seq<SalaryVacancy>, profession: string, i: nat)
    requires Report(rows, profession).Some?
    requires i < |Report(rows, profession).value|
    ensures var st := Report(rows, profession).value;
      var g := GroupOf(rows, st[i].year);
      && st[i].count == |g|
      && st[i].countProfession == |ProfessionRows(g, profession)|
      && Some(st[i].salary) == RoundMean(Salaries(g))
      && Some(st[i].salaryProfession) == RoundMean(Salaries(ProfessionRows(g, profession)))
  {
    FileAnalyticKeys(rows, profession);
    var t := GetFileAnalytic(rows, profession).value;
    assert t.salary.keys[i] in RowYears(rows);
    FileAnalyticAt(rows, profession, t.salary.keys[i]);
  }
}
