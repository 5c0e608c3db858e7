/** api_cb.py: which currencies of the vacancy table are common enough to
    need exchange rates, and the monthly rate table assembled from the
    central bank's daily quotes. */
module CurrencyRates {
  import opened Wrappers
  import opened Seqs
  import opened Numbers
  import opened Records
  import opened Tally
  import SalaryApi

  /** `d_m_y_date`: `YYYY-MM-DD` rewritten as `DD/MM/YYYY` */
  function DmyDate(date: string): (r: string)
    ensures |date| == 10 ==> |r| == 10 && r[2] == '/' && r[5] == '/'
  {
    Drop(date, 8) + "/" + Slice(date, 5, 7) + "/" + Take(date, 4)
  }

  /** `change_date`: a `DD.MM.YYYY` date cut down to its month, `YYYY-MM` */
  function ChangeDate(date: string): (r: string)
    ensures |date| == 10 ==> |r| == 7 && r[4] == '-'
  {
    Drop(date, 6) + "-" + Slice(date, 3, 5)
  }

  /** Reformatting a ten-character date and cutting it down again yields
      its first seven characters exactly when it is written `YYYY-MM-…` */
  lemma {:induction false} ChangeDateOfDmyDate(date: string)
    requires |date| == 10
    ensures ChangeDate(DmyDate(date)) == Take(date, 7) <==> date[4] == '-'
  {
    var c := ChangeDate(DmyDate(date));
    DmyThenChange(date);
    if date[4] == '-' {
      assert forall i :: 0 <= i < 7 ==> c[i] == date[i];
      assert c == date[..7];
    } else {
      assert c[4] != Take(date, 7)[4];
    }
  }

  /** Reformatting a ten-character date and cutting it down again keeps
      its year and its month and puts a dash between them */
  lemma {:induction false} DmyThenChange(date: string)
    requires |date| == 10
    ensures ChangeDate(DmyDate(date)) == date[..4] + "-" + date[5..7]
  {
    var s := DmyDate(date);
    assert s == date[8..] + "/" + date[5..7] + "/" + date[..4];
    assert s[6..] == date[..4] && s[3..5] == date[5..7];
    assert ChangeDate(s) == s[6..] + "-" + s[3..5];
  }

  /** The month a quote of the day `date` is filed under is the month
      api2.py looks rates up by, for any timestamp of that day */
  lemma {:induction false} QuoteMonthIsRateDate(publishedAt: string)
    requires |publishedAt| >= 10 && publishedAt[4] == '-'
    ensures ChangeDate(DmyDate(publishedAt[..10])) == SalaryApi.RateDate(publishedAt)
  {
    ChangeDateOfDmyDate(publishedAt[..10]);
    assert Take(publishedAt[..10], 7) == publishedAt[..7];
  }

  /** `data[pd.notnull(data['salary_currency'])]`: the rows with a currency */
  function Priced(rows: seq<Vacancy>): (r: seq<Vacancy>)
    ensures forall i :: 0 <= i < |r| ==> r[i] in rows && r[i].salaryCurrency.Some?
    ensures forall v :: v in rows && v.salaryCurrency.Some? ==> v in r
  {
    Filter(rows, (v: Vacancy) => v.salaryCurrency.Some?)
  }

  /** The `salary_currency` column of the rows with a currency */
  function CurrencyColumn(rows: seq<Vacancy>): (r: seq<string>)
    ensures |r| == |Priced(rows)|
    ensures forall i :: 0 <= i < |r| ==> Priced(rows)[i].salaryCurrency == Some(r[i])
  {
    if |rows| == 0 then []
    else
      var init := rows[..|rows| - 1];
      var last := rows[|rows| - 1];
      assert Priced(rows) == Priced(init) + if last.salaryCurrency.Some? then [last] else [];
      CurrencyColumn(init) + match last.salaryCurrency
        case None => []
        case Some(c) => [c]
  }

  /** Number of rows quoted in currency `c` */
  function RowsWith(rows: seq<Vacancy>, c: string): nat {
    CountWhere(rows, (v: Vacancy) => v.salaryCurrency == Some(c))
  }

  /** The column holds each currency as often as rows are quoted in it */
  lemma {:induction false} ColumnCounts(rows: seq<Vacancy>, c: string)
    ensures multiset(CurrencyColumn(rows))[c] == RowsWith(rows, c)
  {
    if |rows| > 0 {
      ColumnCounts(rows[..|rows| - 1], c);
    }
  }

  /** A currency is quoted by some row exactly when its count is positive */
  lemma {:induction false} RowsWithPositive(rows: seq<Vacancy>, c: string)
    ensures RowsWith(rows, c) > 0 <==> exists v :: v in rows && v.salaryCurrency == Some(c)
  {
    var p := (v: Vacancy) => v.salaryCurrency == Some(c);
    if RowsWith(rows, c) > 0 {
      assert Filter(rows, p)[0] in rows;
    }
    if exists v :: v in rows && v.salaryCurrency == Some(c) {
      var v :| v in rows && v.salaryCurrency == Some(c);
      var i :| 0 <= i < |rows| && rows[i] == v;
      assert rows[i] in Filter(rows, p);
    }
  }

  /** `get_count_currency`: each currency that occurs, once, with the
      number of rows quoted in it, most frequent first */
  function CurrencyCounts(rows: seq<Vacancy>): (r: seq<(string, nat)>)
    ensures forall i :: 0 <= i < |r| ==> r[i].1 == RowsWith(rows, r[i].0) && r[i].1 > 0
    ensures forall i, j :: 0 <= i < j < |r| ==> r[i].0 != r[j].0 && r[i].1 >= r[j].1
    ensures forall c :: c in Keys(r) <==> exists v :: v in rows && v.salaryCurrency == Some(c)
  {
    CountsPerRow(rows);
    CountsListEvery(rows);
    ValueCounts(CurrencyColumn(rows))
  }

  /** Each entry of the counts is a currency with its number of rows */
  lemma {:induction false} CountsPerRow(rows: seq<Vacancy>)
    ensures forall i :: 0 <= i < |ValueCounts(CurrencyColumn(rows))| ==>
      && ValueCounts(CurrencyColumn(rows))[i].1 == RowsWith(rows, ValueCounts(CurrencyColumn(rows))[i].0)
      && ValueCounts(CurrencyColumn(rows))[i].1 > 0
    ensures forall i, j :: 0 <= i < j < |ValueCounts(CurrencyColumn(rows))| ==>
      ValueCounts(CurrencyColumn(rows))[i].0 != ValueCounts(CurrencyColumn(rows))[j].0
  {
    var xs := CurrencyColumn(rows);
    var r := ValueCounts(xs);
    ValueCountsAt(xs);
    ValueCountsContents(xs);
    forall i | 0 <= i < |r|
      ensures r[i].1 == RowsWith(rows, r[i].0) && r[i].1 > 0
    {
      ColumnCounts(rows, r[i].0);
      assert r[i] in r;
    }
  }

  /** Every currency some row is quoted in is listed, and no other */
  lemma {:induction false} CountsListEvery(rows: seq<Vacancy>)
    ensures forall c :: c in Keys(ValueCounts(CurrencyColumn(rows))) <==>
      exists v :: v in rows && v.salaryCurrency == Some(c)
  {
    var xs := CurrencyColumn(rows);
    ValueCountsContents(xs);
    forall c
      ensures c in Keys(ValueCounts(xs)) <==> exists v :: v in rows && v.salaryCurrency == Some(c)
    {
      ColumnCounts(rows, c);
      RowsWithPositive(rows, c);
      assert c in xs <==> multiset(xs)[c] > 0;
    }
  }

  /** With no row quoted in a currency, nothing is counted */
  lemma {:induction false} CountsNeedPriced(rows: seq<Vacancy>)
    ensures |CurrencyCounts(rows)| > 0 ==> |Priced(rows)| > 0
  {
    var counts := CurrencyCounts(rows);
    if |counts| > 0 {
      assert counts[0].0 in Keys(counts);
      var v :| v in rows && v.salaryCurrency == Some(counts[0].0);
      assert v in Priced(rows);
    }
  }

  /** Each count divided by `n` */
  function Scale(counts: seq<(string, nat)>, n: nat): (r: seq<(string, real)>)
    requires n > 0
    ensures |r| == |counts|
    ensures forall i :: 0 <= i < |r| ==> r[i].0 == counts[i].0 && r[i].1 == counts[i].1 as real / n as real
  {
    if |counts| == 0 then []
    else
      var last := counts[|counts| - 1];
      Scale(counts[..|counts| - 1], n) + [(last.0, last.1 as real / n as real)]
  }

  /** `get_frequrency`: each listed currency with its share of the rows that
      have a currency */
  function Frequencies(rows: seq<Vacancy>): (r: seq<(string, real)>)
    ensures Keys(r) == Keys(CurrencyCounts(rows))
    ensures forall i :: 0 <= i < |r| ==>
      |Priced(rows)| > 0 && r[i].1 == RowsWith(rows, r[i].0) as real / |Priced(rows)| as real
  {
    var counts := CurrencyCounts(rows);
    CountsNeedPriced(rows);
    if |Priced(rows)| == 0 then [] else Scale(counts, |Priced(rows)|)
  }

  /** Sum of the values of a list of pairs */
  function ShareSum(shares: seq<(string, real)>): real {
    if |shares| == 0 then 0.0 else ShareSum(shares[..|shares| - 1]) + shares[|shares| - 1].1
  }

  /** The scaled counts sum to the scaled total */
  lemma {:induction false} ScaleSum(counts: seq<(string, nat)>, n: nat)
    requires n > 0
    ensures ShareSum(Scale(counts, n)) == TotalCount(counts) as real / n as real
  {
    if |counts| > 0 {
      var init := counts[..|counts| - 1];
      var last := counts[|counts| - 1];
      ScaleSum(init, n);
      assert Scale(counts, n)[..|counts| - 1] == Scale(init, n);
      assert ShareSum(Scale(counts, n)) == ShareSum(Scale(init, n)) + last.1 as real / n as real;
      AddOverSame(TotalCount(init) as real, last.1 as real, n as real);
    }
  }

  /** Fractions over the same denominator add their numerators */
  lemma {:induction false} AddOverSame(a: real, b: real, d: real)
    requires d > 0.0
    ensures a / d + b / d == (a + b) / d
  {
  }

  /** The frequencies add up to one as soon as some row has a currency */
  lemma {:induction false} FrequenciesSumToOne(rows: seq<Vacancy>)
    requires |Priced(rows)| > 0
    ensures ShareSum(Frequencies(rows)) == 1.0
  {
    var n := |Priced(rows)|;
    var counts := CurrencyCounts(rows);
    assert Frequencies(rows) == Scale(counts, n);
    assert TotalCount(counts) == n by {
      ValueCountsTotal(CurrencyColumn(rows));
    }
    ScaleSumWhole(counts, n);
  }

  /** Counts that make up the whole divide into shares summing to one */
  lemma {:induction false} ScaleSumWhole(counts: seq<(string, nat)>, n: nat)
    requires n > 0 && TotalCount(counts) == n
    ensures ShareSum(Scale(counts, n)) == 1.0
  {
    ScaleSum(counts, n);
    WholeOverWhole(TotalCount(counts), n, ShareSum(Scale(counts, n)));
  }

  /** A whole divided by itself is one */
  lemma {:induction false} WholeOverWhole(t: nat, n: nat, s: real)
    requires n > 0 && t == n && s == t as real / n as real
    ensures s == 1.0
  {
  }

  /** A currency is popular above this many rows */
  const PopularMinimum: nat := 5000

  /** `get_popular_currency`: the currencies of more than 5000 rows, except
      the rouble, in the order of the counts */
  function PopularCurrency(rows: seq<Vacancy>): (r: seq<string>)
    ensures forall i :: 0 <= i < |r| ==> r[i] != "RUR" && RowsWith(rows, r[i]) > PopularMinimum
  {
    var counts := CurrencyCounts(rows);
    var kept := Filter(counts, (p: (string, nat)) => p.1 > PopularMinimum && p.0 != "RUR");
    var r := Keys(kept);
    forall i | 0 <= i < |r|
      ensures r[i] != "RUR" && RowsWith(rows, r[i]) > PopularMinimum
    {
      assert kept[i] in counts && r[i] == kept[i].0;
    }
    r
  }

  /** A currency is popular exactly when it is not the rouble and more than
      5000 rows are quoted in it */
  lemma {:induction false} PopularCurrencyExactly(rows: seq<Vacancy>, c: string)
    ensures c in PopularCurrency(rows) <==> c != "RUR" && RowsWith(rows, c) > PopularMinimum
  {
    if c != "RUR" && RowsWith(rows, c) > PopularMinimum {
      PopularCurrencyIncludes(rows, c);
    }
  }

  /** A frequent enough currency other than the rouble is popular */
  lemma {:induction false} PopularCurrencyIncludes(rows: seq<Vacancy>, c: string)
    requires c != "RUR" && RowsWith(rows, c) > PopularMinimum
    ensures c in PopularCurrency(rows)
  {
    var counts := CurrencyCounts(rows);
    var p := (p: (string, nat)) => p.1 > PopularMinimum && p.0 != "RUR";
    RowsWithPositive(rows, c);
    assert c in Keys(counts);
    var i :| 0 <= i < |counts| && Keys(counts)[i] == c;
    assert counts[i].0 == c && p(counts[i]);
    FilterKeys(counts, p, c);
  }

  /** The popular currencies are listed once each, most frequent first */
  lemma {:induction false} PopularCurrencyOrder(rows: seq<Vacancy>)
    ensures forall i, j :: 0 <= i < j < |PopularCurrency(rows)| ==>
      && PopularCurrency(rows)[i] != PopularCurrency(rows)[j]
      && RowsWith(rows, PopularCurrency(rows)[i]) >= RowsWith(rows, PopularCurrency(rows)[j])
  {
    var counts := CurrencyCounts(rows);
    var p := (p: (string, nat)) => p.1 > PopularMinimum && p.0 != "RUR";
    var before := (a: (string, nat), b: (string, nat)) => a.0 != b.0 && a.1 >= b.1;
    FilterKeepsOrder(counts, p, before);
    var kept := Filter(counts, p);
    forall i | 0 <= i < |kept|
      ensures kept[i].1 == RowsWith(rows, kept[i].0)
    {
      assert kept[i] in counts;
    }
  }

  /** The central bank's daily quote service; the date goes last */
  const CbrDailyUrl := "https://www.cbr.ru/scripts/XML_daily.asp?date_req="

  /** `requests()`: one quote request per date, in date order */
  function Requests(dates: seq<string>): (r: seq<string>)
    ensures |r| == |dates|
    ensures forall i :: 0 <= i < |r| ==> CbrDailyUrl <= r[i]
  {
    seq(|dates|, i requires 0 <= i < |dates| => CbrDailyUrl + dates[i])
  }

  /** The date a request asks for */
  function RequestDate(url: string): string {
    Drop(url, |CbrDailyUrl|)
  }

  /** Each request asks for its own date, so different dates give
      different requests */
  lemma {:induction false} RequestsRoundTrip(dates: seq<string>)
    ensures forall i :: 0 <= i < |dates| ==> RequestDate(Requests(dates)[i]) == dates[i]
    ensures Distinct(Requests(dates)) <==> Distinct(dates)
  {
    var r := Requests(dates);
    forall i | 0 <= i < |dates|
      ensures RequestDate(r[i]) == dates[i]
    {
      assert r[i] == CbrDailyUrl + dates[i];
      assert (CbrDailyUrl + dates[i])[|CbrDailyUrl|..] == dates[i];
    }
    if Distinct(dates) {
      forall i, j | 0 <= i < j < |r|
        ensures r[i] != r[j]
      {
        assert RequestDate(r[i]) == dates[i] && RequestDate(r[j]) == dates[j];
      }
    }
  }

  /** One `Valute` entry of a daily quote: its code, its value and the
      number of units the value is for; the decimal comma of `Value` is
      already read */
  datatype Valute = Valute(charCode: string, value: real, nominal: real)

  /** One parsed daily quote: its `@Date` (`DD.MM.YYYY`) and its entries */
  datatype Quote = Quote(date: string, valutes: seq<Valute>)

  /** The rate of one unit: `round(value / nominal, 6)` */
  function UnitRate(v: Valute): real
    requires v.nominal != 0.0
  {
    RoundTo6(v.value / v.nominal)
  }

  /** No later entry has the code of entry `i` */
  predicate LastOf(valutes: seq<Valute>, i: nat)
    requires i < |valutes|
  {
    forall j :: i < j < |valutes| ==> valutes[j].charCode != valutes[i].charCode
  }

  /** `currency_value` of one quote: every listed currency starts at 0 and
      takes the unit rate of each of its entries in turn, so the last one
      wins; a zero nominal of a listed currency raises (`None`) */
  function QuoteRates(currencies: seq<string>, valutes: seq<Valute>): (r: Option<map<string, real>>)
    ensures r.Some? ==> forall c :: c in r.value <==> c in currencies
  {
    if |valutes| == 0 then Some(map c | c in currencies :: 0.0)
    else
      var last := valutes[|valutes| - 1];
      match QuoteRates(currencies, valutes[..|valutes| - 1])
      case None => None
      case Some(m) =>
        if last.charCode !in currencies then Some(m)
        else if last.nominal == 0.0 then None
        else Some(m[last.charCode := UnitRate(last)])
  }

  /** A quote fails exactly when an entry of a listed currency has a zero
      nominal */
  lemma {:induction false} QuoteRatesFail(currencies: seq<string>, valutes: seq<Valute>)
    ensures QuoteRates(currencies, valutes).Some? <==>
      forall i :: 0 <= i < |valutes| && valutes[i].charCode in currencies ==> valutes[i].nominal != 0.0
  {
    if |valutes| > 0 {
      var init := valutes[..|valutes| - 1];
      QuoteRatesFail(currencies, init);
      assert forall i :: 0 <= i < |init| ==> init[i] == valutes[i];
    }
  }

  /** A listed currency without an entry keeps 0; otherwise it holds the
      unit rate of its last entry */
  lemma {:induction false} QuoteRatesValues(currencies: seq<string>, valutes: seq<Valute>)
    requires QuoteRates(currencies, valutes).Some?
    ensures forall c :: c in currencies && (forall i :: 0 <= i < |valutes| ==> valutes[i].charCode != c) ==>
      QuoteRates(currencies, valutes).value[c] == 0.0
    ensures forall i :: 0 <= i < |valutes| && LastOf(valutes, i) && valutes[i].charCode in currencies ==>
      valutes[i].nominal != 0.0 && QuoteRates(currencies, valutes).value[valutes[i].charCode] == UnitRate(valutes[i])
  {
    if |valutes| > 0 {
      var init := valutes[..|valutes| - 1];
      var last := valutes[|valutes| - 1];
      var r := QuoteRates(currencies, valutes).value;
      QuoteRatesValues(currencies, init);
      var m := QuoteRates(currencies, init).value;
      assert forall c :: c != last.charCode && c in m ==> r[c] == m[c];
      forall c | c in currencies && (forall i :: 0 <= i < |valutes| ==> valutes[i].charCode != c)
        ensures r[c] == 0.0
      {
        assert forall i :: 0 <= i < |init| ==> init[i] == valutes[i];
      }
      forall i | 0 <= i < |valutes| && LastOf(valutes, i) && valutes[i].charCode in currencies
        ensures valutes[i].nominal != 0.0 && r[valutes[i].charCode] == UnitRate(valutes[i])
      {
        if i < |init| {
          assert init[i] == valutes[i];
          assert LastOf(init, i);
          assert last.charCode != valutes[i].charCode;
        }
      }
    }
  }

  /** `dict_result`: the `date` column and one column per popular currency */
  datatype RateColumns = RateColumns(dates: seq<string>, rates: map<string, seq<real>>)

  /** `make_res_dict` given the parsed quotes in request order: each quote
      adds its month to `date` and one value to every currency column */
  function MakeResDict(currencies: seq<string>, quotes: seq<Quote>): (r: Option<RateColumns>)
    ensures r.Some? ==>
      && |r.value.dates| == |quotes|
      && (forall c :: c in r.value.rates <==> c in currencies)
      && (forall c :: c in r.value.rates ==> |r.value.rates[c]| == |quotes|)
  {
    if |quotes| == 0 then Some(RateColumns([], map c | c in currencies :: []))
    else
      var last := quotes[|quotes| - 1];
      match MakeResDict(currencies, quotes[..|quotes| - 1])
      case None => None
      case Some(acc) =>
        match QuoteRates(currencies, last.valutes)
        case None => None
        case Some(q) =>
          Some(RateColumns(acc.dates + [ChangeDate(last.date)], map c | c in acc.rates :: acc.rates[c] + [q[c]]))
  }

  /** The table is built exactly when every quote is */
  lemma {:induction false} MakeResDictFail(currencies: seq<string>, quotes: seq<Quote>)
    ensures MakeResDict(currencies, quotes).Some? <==>
      forall i :: 0 <= i < |quotes| ==> QuoteRates(currencies, quotes[i].valutes).Some?
  {
    if |quotes| > 0 {
      var init := quotes[..|quotes| - 1];
      var last := quotes[|quotes| - 1];
      MakeResDictFail(currencies, init);
      MakeResDictSome(currencies, quotes);
      assert forall i :: 0 <= i < |init| ==> init[i] == quotes[i];
    }
  }

  /** One more quote is added exactly when its rates can be read */
  lemma {:induction false} MakeResDictSome(currencies: seq<string>, quotes: seq<Quote>)
    requires |quotes| > 0
    ensures MakeResDict(currencies, quotes).Some? <==>
      MakeResDict(currencies, quotes[..|quotes| - 1]).Some? && QuoteRates(currencies, quotes[|quotes| - 1].valutes).Some?
  {
  }

  /** One more quote appends its month and its rates to the columns */
  lemma {:induction false} MakeResDictStep(currencies: seq<string>, quotes: seq<Quote>)
    requires |quotes| > 0 && MakeResDict(currencies, quotes).Some?
    ensures MakeResDict(currencies, quotes[..|quotes| - 1]).Some?
    ensures QuoteRates(currencies, quotes[|quotes| - 1].valutes).Some?
    ensures var t := MakeResDict(currencies, quotes).value;
      var acc := MakeResDict(currencies, quotes[..|quotes| - 1]).value;
      && t.dates == acc.dates + [ChangeDate(quotes[|quotes| - 1].date)]
      && (forall c :: c in currencies ==> c in acc.rates && t.rates[c] == acc.rates[c] + [RateIn(currencies, quotes[|quotes| - 1], c)])
  {
  }

  /** Row `i` of the `date` column is the month of quote `i` */
  lemma {:induction false} MakeResDictDates(currencies: seq<string>, quotes: seq<Quote>)
    requires MakeResDict(currencies, quotes).Some?
    ensures forall i :: 0 <= i < |quotes| ==> MakeResDict(currencies, quotes).value.dates[i] == ChangeDate(quotes[i].date)
  {
    if |quotes| > 0 {
      var init := quotes[..|quotes| - 1];
      MakeResDictStep(currencies, quotes);
      MakeResDictDates(currencies, init);
      assert forall i :: 0 <= i < |init| ==> init[i] == quotes[i];
    }
  }

  /** The rate a quote gives a listed currency */
  function RateIn(currencies: seq<string>, quote: Quote, c: string): real {
    match QuoteRates(currencies, quote.valutes)
    case Some(m) => if c in m then m[c] else 0.0
    case None => 0.0
  }

  /** Row `i` of each currency column is that currency's rate in quote `i` */
  lemma {:induction false} MakeResDictRates(currencies: seq<string>, quotes: seq<Quote>)
    requires MakeResDict(currencies, quotes).Some?
    ensures forall c, i :: c in currencies && 0 <= i < |quotes| ==>
      MakeResDict(currencies, quotes).value.rates[c][i] == RateIn(currencies, quotes[i], c)
  {
    forall c | c in currencies
      ensures forall i :: 0 <= i < |quotes| ==>
        MakeResDict(currencies, quotes).value.rates[c][i] == RateIn(currencies, quotes[i], c)
    {
      MakeResDictColumn(currencies, quotes, c);
    }
  }

  /** The same for one currency column */
  lemma {:induction false} MakeResDictColumn(currencies: seq<string>, quotes: seq<Quote>, c: string)
    requires MakeResDict(currencies, quotes).Some? && c in currencies
    ensures forall i :: 0 <= i < |quotes| ==>
      MakeResDict(currencies, quotes).value.rates[c][i] == RateIn(currencies, quotes[i], c)
  {
    if |quotes| > 0 {
      var init := quotes[..|quotes| - 1];
      MakeResDictStep(currencies, quotes);
      MakeResDictColumn(currencies, init, c);
      var col := MakeResDict(currencies, quotes).value.rates[c];
      var prev := MakeResDict(currencies, init).value.rates[c];
      forall i | 0 <= i < |init|
        ensures col[i] == RateIn(currencies, quotes[i], c)
      {
        assert init[i] == quotes[i];
        assert col[i] == prev[i];
      }
    }
  }

  /** A popular currency missing from a quote gets 0 in that quote's row */
  lemma {:induction false} MissingCurrencyIsZero(currencies: seq<string>, quotes: seq<Quote>, i: nat, c: string)
    requires MakeResDict(currencies, quotes).Some?
    requires i < |quotes| && c in currencies
    requires forall k :: 0 <= k < |quotes[i].valutes| ==> quotes[i].valutes[k].charCode != c
    ensures MakeResDict(currencies, quotes).value.rates[c][i] == 0.0
  {
    MakeResDictRates(currencies, quotes);
    MakeResDictFail(currencies, quotes);
    QuoteRatesValues(currencies, quotes[i].valutes);
  }

  /** `make_res_dict` as the script calls it: one column per popular
      currency of the vacancy table */
  function RateTable(rows: seq<Vacancy>, quotes: seq<Quote>): (r: Option<RateColumns>)
    ensures r.Some? ==> forall c :: c in r.value.rates <==> c != "RUR" && RowsWith(rows, c) > PopularMinimum
  {
    PopularCurrencyAll(rows);
    MakeResDict(PopularCurrency(rows), quotes)
  }

  /** `PopularCurrencyExactly` for every currency at once */
  lemma {:induction false} PopularCurrencyAll(rows: seq<Vacancy>)
    ensures forall c :: c in PopularCurrency(rows) <==> c != "RUR" && RowsWith(rows, c) > PopularMinimum
  {
    forall c
      ensures c in PopularCurrency(rows) <==> c != "RUR" && RowsWith(rows, c) > PopularMinimum
    {
      PopularCurrencyExactly(rows, c);
    }
  }
}
