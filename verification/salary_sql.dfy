/** sql2.py: the same salary conversion as api2.py, with the rates read
    from an SQLite table, and the table of converted vacancies it stores. */
module SalarySql {
  import opened Wrappers
  import opened Seqs
  import opened Numbers
  import opened Records
  import opened SalaryApi

  /** `fetchone()` of `... where date = ?`: the first row of the month */
  function Fetch(rows: seq<RateRow>, date: string): (r: Option<RateRow>)
    ensures r.Some? ==> r.value in rows && r.value.date == date
  {
    if |rows| == 0 then None
    else if rows[0].date == date then Some(rows[0])
    else Fetch(rows[1..], date)
  }

  /** `get_converted_currency_salary`: an unknown column (the query fails),
      no row (`None[0]` fails) and a NULL cell all give `None` */
  function SqlRate(table: RateTable, currency: string, date: string): Option<real> {
    if currency !in table.columns then None
    else
      match Fetch(table.rows, date)
      case None => None
      case Some(row) => if currency in row.cells then Some(row.cells[currency]) else None
  }

  /** `Fetch` returns the row `FirstOn` points at */
  lemma {:induction false} FetchFirst(rows: seq<RateRow>, date: string)
    ensures Fetch(rows, date) == match FirstOn(rows, date)
      case None => None
      case Some(i) => Some(rows[i])
  {
    if |rows| > 0 && rows[0].date != date {
      FetchFirst(rows[1..], date);
    }
  }

  /** Both scripts read the same rate from the same table */
  lemma {:induction false} SqlRateAgrees(table: RateTable, currency: string, date: string)
    ensures SqlRate(table, currency, date) == ApiRate(table, currency, date)
  {
    FetchFirst(table.rows, date);
    ApiRateFirstRow(table, currency, date);
  }

  /** sql2.py's copy of `get_salary_row` */
  function GetSalaryRow(v: Vacancy, rate: (string, string) -> Option<real>): (r: Option<int>)
    ensures r.Some? ==> v.salaryCurrency.Some? && (v.salaryFrom.Some? || v.salaryTo.Some?)
  {
    if v.salaryCurrency.None? || (v.salaryTo.None? && v.salaryFrom.None?) then None
    else
      var conv := if v.salaryCurrency.value == "RUR" then Some(1.0)
                  else rate(v.salaryCurrency.value, RateDate(v.publishedAt));
      if conv.None? || conv.value == 0.0 then None
      else Some(RoundProduct(AverageSalary(v), conv.value))
  }

  /** The average of the two bounds, a missing one counting as 0 */
  function AverageSalary(v: Vacancy): real {
    var f := v.salaryFrom.GetOr(0.0);
    var t := v.salaryTo.GetOr(0.0);
    if t == 0.0 || f == 0.0 then (if t >= f then t else f) else 0.5 * (t + f)
  }

  /** The two copies decide alike for every rate lookup */
  lemma {:induction false} GetSalaryRowAgrees(v: Vacancy, rate: (string, string) -> Option<real>)
    ensures GetSalaryRow(v, rate) == SalaryApi.GetSalaryRow(v, rate)
  {
    if v.salaryCurrency.Some? && !(v.salaryTo.None? && v.salaryFrom.None?) {
      var conv := Conversion(v.salaryCurrency.value, RateDate(v.publishedAt), rate);
      assert SalaryApi.GetSalaryRow(v, rate) == SalaryFor(v, conv);
      assert AverageSalary(v) == Base(v.salaryFrom, v.salaryTo);
    }
  }

  /** The salary of a vacancy against the rate table */
  function SqlSalary(table: RateTable, v: Vacancy): Option<int> {
    GetSalaryRow(v, (currency, date) => SqlRate(table, currency, date))
  }

  /** The two scripts give every vacancy the same salary */
  lemma {:induction false} SqlSalaryAgrees(table: RateTable, v: Vacancy)
    ensures SqlSalary(table, v) == ApiSalary(table, v)
  {
    var sql := (currency, date) => SqlRate(table, currency, date);
    var api := (currency, date) => ApiRate(table, currency, date);
    GetSalaryRowAgrees(v, sql);
    if v.salaryCurrency.Some? {
      SqlRateAgrees(table, v.salaryCurrency.value, RateDate(v.publishedAt));
      OnlyOwnRateMatters(v, sql, api);
    }
  }

  /** One row of the stored table: name, salary, area_name, published_at;
      a missing cell is `None` */
  datatype SqlRow = SqlRow(name: string, salary: Option<int>, areaName: string, publishedAt: Option<string>)

  /** `data['published_at'][:7]` assigned back to the column: the slice
      takes the column's first seven ROWS, and the assignment aligns on the
      row index, so only those rows keep a value, unchanged */
  function AlignedHead(column: seq<string>, n: nat): (r: seq<Option<string>>)
    ensures |r| == |column|
  {
    var head := Take(column, n);
    seq(|column|, i requires 0 <= i < |column| => if i < |head| then Some(head[i]) else None)
  }

  /** The `published_at` column */
  function PublishedColumn(rows: seq<Vacancy>): (r: seq<string>)
    ensures |r| == |rows|
    ensures forall i :: 0 <= i < |rows| ==> r[i] == rows[i].publishedAt
  {
    seq(|rows|, i requires 0 <= i < |rows| => rows[i].publishedAt)
  }

  /** `make_sql` as written */
  function MakeSqlAsWritten(table: RateTable, rows: seq<Vacancy>): (r: seq<SqlRow>)
    ensures |r| == |rows|
  {
    var published := AlignedHead(PublishedColumn(rows), 7);
    seq(|rows|, i requires 0 <= i < |rows| =>
      SqlRow(rows[i].name, SqlSalary(table, rows[i]), rows[i].areaName, published[i]))
  }

  /** As written, the first seven rows keep their whole timestamp and every
      later row loses its date */
  lemma {:induction false} MakeSqlAsWrittenDates(table: RateTable, rows: seq<Vacancy>)
    ensures forall i :: 0 <= i < |rows| ==>
      MakeSqlAsWritten(table, rows)[i].publishedAt == if i < 7 then Some(rows[i].publishedAt) else None
  {
  }

  /** A table of eight vacancies stores no date for its eighth row, and a
      full timestamp rather than a month for its first */
  lemma {:induction false} MakeSqlAsWrittenCounterexample(table: RateTable)
    ensures var v := Vacancy("a", None, None, None, "b", "2022-07-05T10:00:00+0300");
      var out := MakeSqlAsWritten(table, seq(8, i => v));
      && out[7].publishedAt == None
      && out[0].publishedAt == Some("2022-07-05T10:00:00+0300")
      && out[0].publishedAt != Some(RateDate(v.publishedAt))
  {
    var v := Vacancy("a", None, None, None, "b", "2022-07-05T10:00:00+0300");
    MakeSqlAsWrittenDates(table, seq(8, i => v));
    assert |RateDate(v.publishedAt)| == 7;
  }

  /** `make_sql` as evidently intended (`.str[:7]`): every row keeps the
      month of its own timestamp */
  function MakeSql(table: RateTable, rows: seq<Vacancy>): (r: seq<SqlRow>)
    ensures |r| == |rows|
    ensures forall i :: 0 <= i < |rows| ==>
      && r[i].name == rows[i].name
      && r[i].areaName == rows[i].areaName
      && r[i].salary == SqlSalary(table, rows[i])
      && r[i].publishedAt == Some(RateDate(rows[i].publishedAt))
  {
    seq(|rows|, i requires 0 <= i < |rows| =>
      SqlRow(rows[i].name, SqlSalary(table, rows[i]), rows[i].areaName, Some(RateDate(rows[i].publishedAt))))
  }

  /** The two versions differ only in the date column, and agree there only
      on the first seven rows with timestamps of at most seven characters */
  lemma {:induction false} MakeSqlCorrection(table: RateTable, rows: seq<Vacancy>)
    ensures forall i :: 0 <= i < |rows| ==>
      && MakeSql(table, rows)[i].salary == MakeSqlAsWritten(table, rows)[i].salary
      && (MakeSql(table, rows)[i].publishedAt == MakeSqlAsWritten(table, rows)[i].publishedAt <==>
          i < 7 && |rows[i].publishedAt| <= 7)
  {
    MakeSqlAsWrittenDates(table, rows);
    forall i | 0 <= i < |rows| && i < 7
      ensures RateDate(rows[i].publishedAt) == rows[i].publishedAt <==> |rows[i].publishedAt| <= 7
    {
      var p := rows[i].publishedAt;
      if |p| <= 7 {
        assert RateDate(p) == p[..|p|] == p;
      }
    }
  }
}
