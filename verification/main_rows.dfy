/** main.py, the reading half of `DataSet.parse_csv`: which CSV rows
    become vacancies, how a vacancy is read from its row, and its average
    salary in roubles (`Vacancy.get_average`, the `Salary` rate table). */
module MainRows {
  import opened Wrappers
  import opened Seqs

  /** `parse_csv`'s row filter: the first row is the header; a later row is
      data when it has as many cells as the header and no empty cell */
  function DataRows(csv: seq<seq<string>>): (r: seq<seq<string>>)
    ensures forall i :: 0 <= i < |r| ==> |csv| > 0 && r[i] in csv[1..] && |r[i]| == |csv[0]| && "" !in r[i]
    ensures forall j :: 1 <= j < |csv| && |csv[j]| == |csv[0]| && "" !in csv[j] ==> csv[j] in r
  {
    if |csv| == 0 then []
    else
      assert forall j :: 1 <= j < |csv| ==> csv[j] == csv[1..][j - 1];
      Filter(csv[1..], (row: seq<string>) => |row| == |csv[0]| && "" !in row)
  }

  /** The data rows keep their order in the file */
  lemma {:induction false} DataRowsInOrder(csv: seq<seq<string>>)
    requires |csv| > 0
    ensures IsSubsequence(DataRows(csv), csv[1..])
  {
    FilterIsSubsequence(csv[1..], (row: seq<string>) => |row| == |csv[0]| && "" !in row);
  }

  /** `dict(zip(titles, row))[key]`: the cell under the last column titled
      `key`; no such column raises `KeyError` (`None`) */
  function Cell(titles: seq<string>, row: seq<string>, key: string): (r: Option<string>)
    requires |titles| == |row|
    ensures r.None? <==> key !in titles
    ensures r.Some? ==> exists i :: 0 <= i < |titles| && titles[i] == key && row[i] == r.value && LastTitle(titles, i)
  {
    if |titles| == 0 then None
    else if titles[|titles| - 1] == key then
      Some(row[|row| - 1])
    else
      var r := Cell(titles[..|titles| - 1], row[..|row| - 1], key);
      assert key in titles <==> key in titles[..|titles| - 1] by {
        assert titles == titles[..|titles| - 1] + [titles[|titles| - 1]];
      }
      r
  }

  /** No later column has the title of column `i` */
  predicate LastTitle(titles: seq<string>, i: nat)
    requires i < |titles|
  {
    forall j :: i < j < |titles| ==> titles[j] != titles[i]
  }

  /** A vacancy as main.py holds it: the two bounds already read as floats */
  datatype MainVacancy = MainVacancy(
    name: string,
    salaryFrom: real,
    salaryTo: real,
    salaryCurrency: string,
    areaName: string,
    publishedAt: string)

  /** `Vacancy(dct)`: the six named cells; a missing column (`KeyError`)
      or a bound `toFloat` rejects (`ValueError`) gives `None`. `toFloat`
      stands for Python's `float` on a cell. */
  function MakeVacancy(titles: seq<string>, row: seq<string>, toFloat: string -> Option<real>): (r: Option<MainVacancy>)
    requires |titles| == |row|
    ensures r.Some? <==>
      HasColumns(titles) && Bound(titles, row, "salary_from", toFloat).Some? && Bound(titles, row, "salary_to", toFloat).Some?
    ensures r.Some? ==>
      && r.value.salaryFrom == Bound(titles, row, "salary_from", toFloat).value
      && r.value.salaryTo == Bound(titles, row, "salary_to", toFloat).value
      && Cell(titles, row, "name") == Some(r.value.name)
      && Cell(titles, row, "salary_currency") == Some(r.value.salaryCurrency)
      && Cell(titles, row, "area_name") == Some(r.value.areaName)
      && Cell(titles, row, "published_at") == Some(r.value.publishedAt)
  {
    if !HasColumns(titles) then None
    else
      match (Bound(titles, row, "salary_from", toFloat), Bound(titles, row, "salary_to", toFloat))
      case (Some(f), Some(t)) =>
        Some(MainVacancy(
          Cell(titles, row, "name").value, f, t, Cell(titles, row, "salary_currency").value,
          Cell(titles, row, "area_name").value, Cell(titles, row, "published_at").value))
      case _ => None
  }

  /** Every column a vacancy is read from is in the header */
  predicate HasColumns(titles: seq<string>) {
    && "name" in titles && "salary_from" in titles && "salary_to" in titles
    && "salary_currency" in titles && "area_name" in titles && "published_at" in titles
  }

  /** A salary bound: `float` of its cell, `None` without the column */
  function Bound(titles: seq<string>, row: seq<string>, key: string, toFloat: string -> Option<real>): (r: Option<real>)
    requires |titles| == |row|
    ensures key !in titles ==> r.None?
  {
    match Cell(titles, row, key)
    case None => None
    case Some(cell) => toFloat(cell)
  }

  /** The columns a vacancy is read from, in the order of the header the
      other scripts write */
  const ColumnNames: seq<string> := ["name", "salary_from", "salary_to", "salary_currency", "area_name", "published_at"]

  /** With that header the cells are read by position */
  lemma {:induction false} MakeVacancyByPosition(row: seq<string>, toFloat: string -> Option<real>)
    requires |row| == |ColumnNames|
    requires toFloat(row[1]).Some? && toFloat(row[2]).Some?
    ensures MakeVacancy(ColumnNames, row, toFloat) ==
      Some(MainVacancy(row[0], toFloat(row[1]).value, toFloat(row[2]).value, row[3], row[4], row[5]))
  {
    var t := ColumnNames;
    assert Distinct(t) by {
      forall i, j | 0 <= i < j < |t|
        ensures t[i] != t[j]
      {
        assert t[i][0] != t[j][0] || t[i][|t[i]| - 1] != t[j][|t[j]| - 1] || |t[i]| != |t[j]|;
      }
    }
    CellDistinct(t, row, 0);
    CellDistinct(t, row, 1);
    CellDistinct(t, row, 2);
    CellDistinct(t, row, 3);
    CellDistinct(t, row, 4);
    CellDistinct(t, row, 5);
    assert HasColumns(t) by {
      assert t[0] in t && t[1] in t && t[2] in t && t[3] in t && t[4] in t && t[5] in t;
    }
    assert Bound(t, row, "salary_from", toFloat) == toFloat(row[1]);
    assert Bound(t, row, "salary_to", toFloat) == toFloat(row[2]);
  }

  /** Under a header without repeated titles each title names its own cell */
  lemma {:induction false} CellDistinct(titles: seq<string>, row: seq<string>, i: nat)
    requires |titles| == |row| && Distinct(titles) && i < |titles|
    ensures Cell(titles, row, titles[i]) == Some(row[i])
  {
    if i < |titles| - 1 {
      var init := titles[..|titles| - 1];
      assert titles[|titles| - 1] != titles[i];
      assert init[i] == titles[i];
      CellDistinct(init, row[..|row| - 1], i);
    }
  }

  /** `Salary.currency_to_rub`: roubles per unit of each currency */
  const CurrencyToRub: map<string, real> := map[
    "AZN" := 35.68,
    "BYR" := 23.91,
    "EUR" := 59.90,
    "GEL" := 21.74,
    "KGS" := 0.76,
    "KZT" := 0.13,
    "RUR" := 1.0,
    "UAH" := 1.64,
    "USD" := 60.66,
    "UZS" := 0.0055]

  /** `get_average`: the mean of the two bounds, each converted to roubles;
      a currency outside the table raises `KeyError` (`None`) */
  function GetAverage(v: MainVacancy): (r: Option<real>)
    ensures r.Some? <==> v.salaryCurrency in CurrencyToRub
  {
    if v.salaryCurrency !in CurrencyToRub then None
    else
      var rate := CurrencyToRub[v.salaryCurrency];
      Some(0.5 * (v.salaryFrom * rate + v.salaryTo * rate))
  }

  /** The average is the midpoint of the bounds times the rate, so it lies
      between the converted bounds; for roubles it is the plain midpoint */
  lemma {:induction false} GetAverageBetween(v: MainVacancy)
    requires v.salaryCurrency in CurrencyToRub
    ensures var rate := CurrencyToRub[v.salaryCurrency];
      && rate > 0.0
      && GetAverage(v).value == rate * ((v.salaryFrom + v.salaryTo) / 2.0)
      && (v.salaryFrom <= v.salaryTo ==> rate * v.salaryFrom <= GetAverage(v).value <= rate * v.salaryTo)
    ensures v.salaryCurrency == "RUR" ==> GetAverage(v).value == (v.salaryFrom + v.salaryTo) / 2.0
  {
    var rate := CurrencyToRub[v.salaryCurrency];
    assert rate > 0.0;
    var m := (v.salaryFrom + v.salaryTo) / 2.0;
    assert GetAverage(v).value == rate * m;
    if v.salaryFrom <= v.salaryTo {
      assert v.salaryFrom <= m <= v.salaryTo;
      ScaleMonotone(rate, v.salaryFrom, m);
      ScaleMonotone(rate, m, v.salaryTo);
    }
  }

  /** Multiplying by a positive rate keeps an order */
  lemma {:induction false} ScaleMonotone(k: real, x: real, y: real)
    requires k > 0.0 && x <= y
    ensures k * x <= k * y
  {
    assert k * y - k * x == k * (y - x);
  }

  /** One row of data as the two loops of `parse_csv` use it: the name,
      the average, the area and the year `int(published_at[:4])` */
  datatype Entry = Entry(name: string, average: real, areaName: string, year: int)

  /** Reads one data row; `toInt` stands for Python's `int` on the year
      digits */
  function RowEntry(titles: seq<string>, row: seq<string>, toFloat: string -> Option<real>, toInt: string -> Option<int>): (r: Option<Entry>)
    requires |titles| == |row|
    ensures r.Some? <==>
      && MakeVacancy(titles, row, toFloat).Some?
      && GetAverage(MakeVacancy(titles, row, toFloat).value).Some?
      && toInt(Take(MakeVacancy(titles, row, toFloat).value.publishedAt, 4)).Some?
    ensures r.Some? ==>
      var v := MakeVacancy(titles, row, toFloat).value;
      r.value == Entry(v.name, GetAverage(v).value, v.areaName, toInt(Take(v.publishedAt, 4)).value)
  {
    match MakeVacancy(titles, row, toFloat)
    case None => None
    case Some(v) =>
      match (GetAverage(v), toInt(Take(v.publishedAt, 4)))
      case (Some(a), Some(y)) => Some(Entry(v.name, a, v.areaName, y))
      case _ => None
  }

  /** Every data row read; any row that cannot be read ends `parse_csv` */
  function Entries(titles: seq<string>, rows: seq<seq<string>>, toFloat: string -> Option<real>, toInt: string -> Option<int>): (r: Option<seq<Entry>>)
    requires forall i :: 0 <= i < |rows| ==> |rows[i]| == |titles|
    ensures r.Some? <==> forall i :: 0 <= i < |rows| ==> RowEntry(titles, rows[i], toFloat, toInt).Some?
    ensures r.Some? ==> |r.value| == |rows|
    ensures r.Some? ==> forall i :: 0 <= i < |rows| ==> r.value[i] == RowEntry(titles, rows[i], toFloat, toInt).value
  {
    var read := (row: seq<string>) => if |row| == |titles| then RowEntry(titles, row, toFloat, toInt) else None;
    var r := ReadAll(rows, read);
    assert forall i :: 0 <= i < |rows| ==> read(rows[i]) == RowEntry(titles, rows[i], toFloat, toInt);
    r
  }

  /** Reads every element, failing as soon as one cannot be read */
  function ReadAll<T, U>(xs: seq<T>, read: T -> Option<U>): (r: Option<seq<U>>)
    ensures r.Some? <==> forall i :: 0 <= i < |xs| ==> read(xs[i]).Some?
    ensures r.Some? ==> |r.value| == |xs| && forall i :: 0 <= i < |xs| ==> r.value[i] == read(xs[i]).value
  {
    if |xs| == 0 then Some([])
    else
      var init := xs[..|xs| - 1];
      assert forall i :: 0 <= i < |init| ==> init[i] == xs[i];
      match ReadAll(init, read)
      case None => None
      case Some(us) =>
        match read(xs[|xs| - 1])
        case None => None
        case Some(u) => Some(us + [u])
  }
}
