/** api2.py: one salary in roubles from the salary fields of a vacancy and
    a monthly table of exchange rates. */
module SalaryApi {
  import opened Wrappers
  import opened Seqs
  import opened Numbers
  import opened Records

  /** One row of the rate table: its `date` (`YYYY-MM`) and the rate of each
      currency column; an empty cell is absent from `cells` */
  datatype RateRow = RateRow(date: string, cells: map<string, real>)

  /** The rate table: its currency columns and its rows in file order */
  datatype RateTable = RateTable(columns: set<string>, rows: seq<RateRow>)

  /** The month a vacancy's rate is looked up for: `published_at[:7]` */
  function RateDate(publishedAt: string): (r: string)
    ensures |r| == if |publishedAt| < 7 then |publishedAt| else 7
    ensures r <= publishedAt
  {
    Take(publishedAt, 7)
  }

  /** The rows of one month: `convert_file[convert_file['date'] == date]` */
  function RowsOn(rows: seq<RateRow>, date: string): seq<RateRow> {
    Filter(rows, (row: RateRow) => row.date == date)
  }

  /** The cells of one column over some rows: `[currency].values` */
  function ColumnValues(rows: seq<RateRow>, currency: string): (r: seq<Option<real>>)
    ensures |r| == |rows|
    ensures forall i :: 0 <= i < |rows| ==>
      r[i] == if currency in rows[i].cells then Some(rows[i].cells[currency]) else None
  {
    if |rows| == 0 then []
    else
      var row := rows[|rows| - 1];
      ColumnValues(rows[..|rows| - 1], currency) + [if currency in row.cells then Some(row.cells[currency]) else None]
  }

  /** `get_converted_currency_salary`: the first value of the currency's
      column on the rows of the month; an unknown column (the `KeyError`
      caught by the bare `except`), no such month or an empty cell give
      `None` */
  function ApiRate(table: RateTable, currency: string, date: string): Option<real> {
    if currency !in table.columns then None
    else
      var values := ColumnValues(RowsOn(table.rows, date), currency);
      if |values| > 0 then values[0] else None
  }

  /** The first row of the month, found by scanning from the top */
  function FirstOn(rows: seq<RateRow>, date: string): (r: Option<nat>)
    ensures r.Some? ==>
      && r.value < |rows| && rows[r.value].date == date
      && (forall j :: 0 <= j < r.value ==> rows[j].date != date)
    ensures r.None? ==> forall j :: 0 <= j < |rows| ==> rows[j].date != date
  {
    if |rows| == 0 then None
    else if rows[0].date == date then Some(0)
    else
      match FirstOn(rows[1..], date)
      case None => None
      case Some(i) => Some(i + 1)
  }

  /** The rate is the currency's cell in the first row of the month */
  lemma {:induction false} ApiRateFirstRow(table: RateTable, currency: string, date: string)
    ensures ApiRate(table, currency, date) ==
      if currency !in table.columns then None
      else match FirstOn(table.rows, date)
        case None => None
        case Some(i) =>
          if currency in table.rows[i].cells then Some(table.rows[i].cells[currency]) else None
  {
    var on := RowsOn(table.rows, date);
    match FirstOn(table.rows, date)
    case None =>
      NoneOn(table.rows, date);
    case Some(i) =>
      FirstOnFilter(table.rows, date, i);
  }

  /** The first row kept by the month filter is the first row of the month */
  lemma {:induction false} FirstOnFilter(rows: seq<RateRow>, date: string, i: nat)
    requires FirstOn(rows, date) == Some(i)
    ensures |RowsOn(rows, date)| > 0 && RowsOn(rows, date)[0] == rows[i]
  {
    var init := rows[..|rows| - 1];
    var last := rows[|rows| - 1];
    assert rows == init + [last];
    if i < |init| {
      assert FirstOn(init, date) == Some(i) by {
        FirstOnUnique(init, date, i);
      }
      FirstOnFilter(init, date, i);
      assert RowsOn(rows, date) == RowsOn(init, date) + (if last.date == date then [last] else []);
    } else {
      assert forall j :: 0 <= j < |init| ==> init[j].date != date;
      NoneOn(init, date);
      assert RowsOn(rows, date) == RowsOn(init, date) + [last];
    }
  }

  /** `FirstOn` is determined by its contract */
  lemma {:induction false} FirstOnUnique(rows: seq<RateRow>, date: string, i: nat)
    requires i < |rows| && rows[i].date == date
    requires forall j :: 0 <= j < i ==> rows[j].date != date
    ensures FirstOn(rows, date) == Some(i)
  {
    match FirstOn(rows, date)
    case None =>
    case Some(k) =>
  }

  /** A month without rows keeps no row */
  lemma {:induction false} NoneOn(rows: seq<RateRow>, date: string)
    requires forall j :: 0 <= j < |rows| ==> rows[j].date != date
    ensures RowsOn(rows, date) == []
  {
    if |rows| > 0 {
      NoneOn(rows[..|rows| - 1], date);
    }
  }

  /** The salary base before conversion: a missing bound counts as 0; if
      either bound is 0 the base is the larger one, otherwise the midpoint */
  function Base(salaryFrom: Option<real>, salaryTo: Option<real>): real {
    var f := salaryFrom.GetOr(0.0);
    var t := salaryTo.GetOr(0.0);
    if t == 0.0 || f == 0.0 then (if t >= f then t else f)
    else 0.5 * (t + f)
  }

  /** The base lies between the two bounds, does not depend on their order,
      and is the one present bound when the other is missing */
  lemma {:induction false} BaseBounds(salaryFrom: Option<real>, salaryTo: Option<real>)
    ensures Base(salaryFrom, salaryTo) == Base(salaryTo, salaryFrom)
    ensures var f := salaryFrom.GetOr(0.0); var t := salaryTo.GetOr(0.0);
      (if f <= t then f else t) <= Base(salaryFrom, salaryTo) <= (if f <= t then t else f)
    ensures salaryTo.None? && salaryFrom.Some? && salaryFrom.value >= 0.0 ==> Base(salaryFrom, salaryTo) == salaryFrom.value
    ensures salaryFrom.None? && salaryTo.Some? && salaryTo.value >= 0.0 ==> Base(salaryFrom, salaryTo) == salaryTo.value
  {
  }

  /** `get_salary_row`: `None` without a currency, without both bounds, or
      without a non-zero rate; RUR is worth 1 without a lookup; otherwise
      `round(base * rate)` */
  function GetSalaryRow(v: Vacancy, rate: (string, string) -> Option<real>): (r: Option<int>)
    ensures r.Some? <==>
      && v.salaryCurrency.Some?
      && (v.salaryFrom.Some? || v.salaryTo.Some?)
      && (v.salaryCurrency.value == "RUR" ||
          (rate(v.salaryCurrency.value, RateDate(v.publishedAt)).Some? &&
           rate(v.salaryCurrency.value, RateDate(v.publishedAt)).value != 0.0))
    ensures r.Some? && v.salaryCurrency.value == "RUR" ==> r.value == RoundHalfEven(Base(v.salaryFrom, v.salaryTo))
    ensures r.Some? && v.salaryCurrency.value != "RUR" ==>
      var x := Base(v.salaryFrom, v.salaryTo) * rate(v.salaryCurrency.value, RateDate(v.publishedAt)).value;
      && x - 0.5 <= r.value as real <= x + 0.5
      && ((r.value as real - x == 0.5 || x - r.value as real == 0.5) ==> r.value % 2 == 0)
  {
    if v.salaryCurrency.None? || (v.salaryTo.None? && v.salaryFrom.None?) then None
    else
      var conv := Conversion(v.salaryCurrency.value, RateDate(v.publishedAt), rate);
      assert v.salaryCurrency.value != "RUR" ==> conv == rate(v.salaryCurrency.value, RateDate(v.publishedAt));
      SalaryFor(v, conv)
  }

  /** The rate used: 1 for roubles, the looked-up one otherwise */
  function Conversion(currency: string, date: string, rate: (string, string) -> Option<real>): (r: Option<real>)
    ensures currency == "RUR" ==> r == Some(1.0)
    ensures currency != "RUR" ==> r == rate(currency, date)
  {
    if currency == "RUR" then Some(1.0) else rate(currency, date)
  }

  /** The rounded salary at a given rate, a tie going to the even integer;
      `not conv` rejects a missing or zero rate */
  function SalaryFor(v: Vacancy, conv: Option<real>): (r: Option<int>)
    ensures r.Some? <==> conv.Some? && conv.value != 0.0
    ensures r.Some? ==>
      var x := Base(v.salaryFrom, v.salaryTo) * conv.value;
      && x - 0.5 <= r.value as real <= x + 0.5
      && ((r.value as real - x == 0.5 || x - r.value as real == 0.5) ==> r.value % 2 == 0)
  {
    if conv.None? || conv.value == 0.0 then None
    else Some(RoundProduct(Base(v.salaryFrom, v.salaryTo), conv.value))
  }

  /** A rouble salary never consults the rate table */
  lemma {:induction false} RurIgnoresRates(v: Vacancy, rate: (string, string) -> Option<real>, rate': (string, string) -> Option<real>)
    requires v.salaryCurrency == Some("RUR")
    ensures GetSalaryRow(v, rate) == GetSalaryRow(v, rate')
  {
  }

  /** Only the vacancy's currency and month are looked up */
  lemma {:induction false} OnlyOwnRateMatters(v: Vacancy, rate: (string, string) -> Option<real>, rate': (string, string) -> Option<real>)
    requires v.salaryCurrency.Some?
    requires rate(v.salaryCurrency.value, RateDate(v.publishedAt)) == rate'(v.salaryCurrency.value, RateDate(v.publishedAt))
    ensures GetSalaryRow(v, rate) == GetSalaryRow(v, rate')
  {
    var date := RateDate(v.publishedAt);
    assert Conversion(v.salaryCurrency.value, date, rate) == Conversion(v.salaryCurrency.value, date, rate');
  }

  /** The salary of a vacancy against the rate table */
  function ApiSalary(table: RateTable, v: Vacancy): Option<int> {
    GetSalaryRow(v, (currency, date) => ApiRate(table, currency, date))
  }

  /** `make_csv_100`: the first hundred vacancies, reduced to the columns
      name, salary, area_name and published_at */
  function MakeCsv100(table: RateTable, rows: seq<Vacancy>): (r: seq<SalaryVacancy>)
    ensures |r| == if |rows| < 100 then |rows| else 100
    ensures forall i :: 0 <= i < |r| ==>
      && r[i].name == rows[i].name
      && r[i].areaName == rows[i].areaName
      && r[i].publishedAt == rows[i].publishedAt
      && (r[i].salary.Some? <==> ApiSalary(table, rows[i]).Some?)
      && (r[i].salary.Some? ==> r[i].salary.value == ApiSalary(table, rows[i]).value as real)
  {
    var head := Take(rows, 100);
    seq(|head|, i requires 0 <= i < |head| => Converted(table, head[i]))
  }

  /** One output row */
  function Converted(table: RateTable, v: Vacancy): SalaryVacancy {
    var s := ApiSalary(table, v);
    SalaryVacancy(v.name, if s.Some? then Some(s.value as real) else None, v.areaName, v.publishedAt)
  }
}
