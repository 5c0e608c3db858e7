/** The row shapes the scripts exchange through CSV files. */
module Records {
  import opened Wrappers
  import opened Seqs
  import opened Dicts
  import opened Text

  /** One row of the six-column vacancy table
      (name, salary_from, salary_to, salary_currency, area_name, published_at);
      an empty cell is `None` */
  datatype Vacancy = Vacancy(
    name: string,
    salaryFrom: Option<real>,
    salaryTo: Option<real>,
    salaryCurrency: Option<string>,
    areaName: string,
    publishedAt: string)

  /** One row of the converted table (name, salary, area_name, published_at) */
  datatype SalaryVacancy = SalaryVacancy(
    name: string,
    salary: Option<real>,
    areaName: string,
    publishedAt: string)

  /** The year key of a timestamp: `published_at[:4]` */
  function YearOf(publishedAt: string): string {
    Take(publishedAt, 4)
  }

  /** `name.str.contains(profession, case=False)` */
  predicate MatchesProfession(v: SalaryVacancy, profession: string) {
    Contains(Lower(v.name), Lower(profession))
  }

  /** The `salary` column */
  function Salaries(rows: seq<SalaryVacancy>): (r: seq<Option<real>>)
    ensures |r| == |rows|
    ensures forall i :: 0 <= i < |rows| ==> r[i] == rows[i].salary
  {
    if |rows| == 0 then [] else Salaries(rows[..|rows| - 1]) + [rows[|rows| - 1].salary]
  }

  /** The `year` column: `published_at[:4]` */
  function RowYears(rows: seq<SalaryVacancy>): (r: seq<string>)
    ensures |r| == |rows|
    ensures forall i :: 0 <= i < |rows| ==> r[i] == YearOf(rows[i].publishedAt)
  {
    if |rows| == 0 then [] else RowYears(rows[..|rows| - 1]) + [YearOf(rows[|rows| - 1].publishedAt)]
  }

  /** The group of `groupby(['year'])` for `year` */
  function GroupOf(rows: seq<SalaryVacancy>, year: string): seq<SalaryVacancy> {
    Filter(rows, (v: SalaryVacancy) => YearOf(v.publishedAt) == year)
  }

  /** Four dictionaries keyed by year: average salary, vacancy count, and the
      same two restricted to the chosen profession */
  datatype YearTables = YearTables(
    salary: ODict<string, int>,
    count: ODict<string, int>,
    salaryProfession: ODict<string, int>,
    countProfession: ODict<string, int>)

  /** The four dictionaries list the same keys in the same order */
  ghost predicate SharedKeys(t: YearTables) {
    && Valid(t.salary)
    && t.count.keys == t.salary.keys && Valid(t.count)
    && t.salaryProfession.keys == t.salary.keys && Valid(t.salaryProfession)
    && t.countProfession.keys == t.salary.keys && Valid(t.countProfession)
  }
}
