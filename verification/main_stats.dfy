/** main.py, the counting half of `DataSet.parse_csv`: salary and count
    per year (all vacancies and those of one profession), and salary and
    share per city for the cities holding at least about one percent of
    the vacancies. */
module MainStats {
  import opened Wrappers
  import opened Seqs
  import opened Text
  import opened Numbers
  import opened Dicts
  import opened Sorting
  import opened KeyFold
  import opened MainRows

  function YearOf(e: Entry): int { e.year }
  function AreaOf(e: Entry): string { e.areaName }

  /** `d[key] += 1` */
  function AddOne(n: int, e: Entry): int { n + 1 }

  /** `d[key] += d.get_average()` */
  function AddAverage(x: real, e: Entry): real { x + e.average }

  /** The same two steps, taken only for vacancies of the profession */
  function AddOneIf(profession: string): (int, Entry) -> int {
    (n: int, e: Entry) => if Contains(e.name, profession) then n + 1 else n
  }

  function AddAverageIf(profession: string): (real, Entry) -> real {
    (x: real, e: Entry) => if Contains(e.name, profession) then x + e.average else x
  }

  /** The year of each vacancy, in order */
  function Years(es: seq<Entry>): (r: seq<int>)
    ensures |r| == |es| && forall i :: 0 <= i < |es| ==> r[i] == es[i].year
  {
    seq(|es|, i requires 0 <= i < |es| => es[i].year)
  }

  /** The area of each vacancy, in order */
  function Areas(es: seq<Entry>): (r: seq<string>)
    ensures |r| == |es| && forall i :: 0 <= i < |es| ==> r[i] == es[i].areaName
  {
    seq(|es|, i requires 0 <= i < |es| => es[i].areaName)
  }

  /** The first loop: every year entered with 0 */
  function YearZeros<V>(es: seq<Entry>, zero: V): (r: ODict<int, V>)
    ensures Valid(r) && r.keys == Unique(Years(es))
    ensures forall i :: 0 <= i < |es| ==> es[i].year in r.values
    ensures forall k :: k in r.values ==> r.values[k] == zero
  {
    var r := PutAll(Years(es), zero);
    assert forall i :: 0 <= i < |es| ==> Years(es)[i] in r.keys;
    r
  }

  /** The first loop: every area entered with 0 */
  function AreaZeros<V>(es: seq<Entry>, zero: V): (r: ODict<string, V>)
    ensures Valid(r) && r.keys == Unique(Areas(es))
    ensures forall i :: 0 <= i < |es| ==> es[i].areaName in r.values
    ensures forall k :: k in r.values ==> r.values[k] == zero
  {
    var r := PutAll(Areas(es), zero);
    assert forall i :: 0 <= i < |es| ==> Areas(es)[i] in r.keys;
    r
  }

  /** `dct_years_count` after the second loop */
  function YearCount(es: seq<Entry>): (r: ODict<int, int>)
    ensures r.keys == Unique(Years(es))
    ensures forall y :: y in r.values <==> y in YearZeros(es, 0).values
  {
    Accumulate(YearZeros(es, 0), es, YearOf, AddOne)
  }

  /** `dct_years_salary` after the second loop */
  function YearSum(es: seq<Entry>): (r: ODict<int, real>)
    ensures r.keys == Unique(Years(es))
    ensures forall y :: y in r.values <==> y in YearZeros(es, 0.0).values
  {
    Accumulate(YearZeros(es, 0.0), es, YearOf, AddAverage)
  }

  /** `dct_years_count_filt` after the second loop */
  function YearCountFilt(es: seq<Entry>, profession: string): (r: ODict<int, int>)
    ensures r.keys == Unique(Years(es))
    ensures forall y :: y in r.values <==> y in YearZeros(es, 0).values
  {
    Accumulate(YearZeros(es, 0), es, YearOf, AddOneIf(profession))
  }

  /** `dct_years_salary_filt` after the second loop */
  function YearSumFilt(es: seq<Entry>, profession: string): (r: ODict<int, real>)
    ensures r.keys == Unique(Years(es))
    ensures forall y :: y in r.values <==> y in YearZeros(es, 0.0).values
  {
    Accumulate(YearZeros(es, 0.0), es, YearOf, AddAverageIf(profession))
  }

  /** `dct_count_by_sity` after the second loop */
  function CityCount(es: seq<Entry>): (r: ODict<string, int>)
    ensures r.keys == Unique(Areas(es))
    ensures forall c :: c in r.values <==> c in AreaZeros(es, 0).values
  {
    Accumulate(AreaZeros(es, 0), es, AreaOf, AddOne)
  }

  /** `dct_salary_by_sity` after the second loop */
  function CitySum(es: seq<Entry>): (r: ODict<string, real>)
    ensures r.keys == Unique(Areas(es))
    ensures forall c :: c in r.values <==> c in AreaZeros(es, 0.0).values
  {
    Accumulate(AreaZeros(es, 0.0), es, AreaOf, AddAverage)
  }

  /** The last loop: a year with vacancies gets `math.floor(sum / count)`;
      a year without keeps the 0 it was entered with */
  function FloorAverages(sums: ODict<int, real>, counts: ODict<int, int>): (r: ODict<int, int>)
    requires forall k :: k in sums.values <==> k in counts.values
    ensures r.keys == sums.keys
    ensures forall k :: k in r.values <==> k in sums.values
  {
    ODict(sums.keys, map k | k in sums.values ::
      if counts.values[k] != 0 then (sums.values[k] / counts.values[k] as real).Floor else 0)
  }

  /** A city stays unless `round(count / len(data), 4) < 0.01` */
  predicate Kept(count: int, n: nat) {
    n > 0 && !(RoundTo4(count as real / n as real) < 0.01)
  }

  /** The share a kept city reports: `round(count / len(data), 4)` */
  function Share(count: int, n: nat): (r: real)
    requires n > 0
    ensures (r * 10000.0).Floor as real == r * 10000.0
    ensures count as real / n as real - 1.0 / 20000.0 <= r <= count as real / n as real + 1.0 / 20000.0
    ensures (r - count as real / n as real == 1.0 / 20000.0 || count as real / n as real - r == 1.0 / 20000.0) ==>
      (r * 10000.0).Floor % 2 == 0
  {
    RoundTo4(count as real / n as real)
  }

  /** The cities left after the deletions, in first-appearance order */
  function KeptCities(es: seq<Entry>): (r: seq<string>)
    ensures forall i :: 0 <= i < |r| ==> r[i] in CityCount(es).values && Kept(CityCount(es).values[r[i]], |es|)
  {
    var counts := CityCount(es);
    Filter(counts.keys, c => c in counts.values && Kept(counts.values[c], |es|))
  }

  /** `dct_salary_by_sity.items()` after the deletions and the last loop:
      each kept city with `math.floor(sum / count)` */
  function CitySalaryItems(es: seq<Entry>): (r: seq<(string, int)>)
    ensures Keys(r) == KeptCities(es)
  {
    KeptCitiesCounted(es);
    MeanItems(KeptCities(es), CitySum(es).values, CityCount(es).values)
  }

  /** Each key with the floor of its sum over its count */
  function MeanItems(ks: seq<string>, sums: map<string, real>, counts: map<string, int>): (r: seq<(string, int)>)
    requires forall i :: 0 <= i < |ks| ==> ks[i] in sums && ks[i] in counts && counts[ks[i]] > 0
    ensures Keys(r) == ks
    ensures forall i :: 0 <= i < |r| ==> r[i].1 == (sums[ks[i]] / counts[ks[i]] as real).Floor
  {
    var r := seq(|ks|, i requires 0 <= i < |ks| => (ks[i], (sums[ks[i]] / counts[ks[i]] as real).Floor));
    assert forall i :: 0 <= i < |ks| ==> Keys(r)[i] == ks[i];
    r
  }

  /** Each item is a kept city with the floor of its sum over its count */
  lemma {:induction false} CitySalaryItemAt(es: seq<Entry>, p: (string, int))
    requires p in CitySalaryItems(es)
    ensures p.0 in CitySum(es).values && p.0 in CityCount(es).values && CityCount(es).values[p.0] > 0
    ensures p.1 == (CitySum(es).values[p.0] / CityCount(es).values[p.0] as real).Floor
  {
    var items := CitySalaryItems(es);
    KeptCitiesCounted(es);
    var i :| 0 <= i < |items| && items[i] == p;
    assert Keys(items)[i] == KeptCities(es)[i];
  }

  /** A kept city has vacancies and a salary sum */
  lemma {:induction false} KeptCitiesCounted(es: seq<Entry>)
    ensures forall i :: 0 <= i < |KeptCities(es)| ==>
      && KeptCities(es)[i] in CitySum(es).values && KeptCities(es)[i] in CityCount(es).values
      && CityCount(es).values[KeptCities(es)[i]] > 0
  {
    var counts := CityCount(es);
    var kept := KeptCities(es);
    forall i | 0 <= i < |kept|
      ensures kept[i] in CitySum(es).values && counts.values[kept[i]] > 0
    {
      KeptExactly(counts.values[kept[i]], |es|);
    }
  }

  /** `sorted(dct_salary_by_sity.items(), key=lambda x: -x[1])` */
  function CitySalary(es: seq<Entry>): (r: seq<(string, int)>)
    ensures NonIncreasing(r, (p: (string, int)) => p.1 as real)
    ensures multiset(r) == multiset(CitySalaryItems(es))
    ensures forall c :: c in Keys(r) <==> c in KeptCities(es)
  {
    var r := SortDesc(CitySalaryItems(es), (p: (string, int)) => p.1 as real);
    KeysOfPermutation(CitySalaryItems(es), r);
    r
  }

  /** `dct_part.items()`: each kept city with its share */
  function CityShareItems(es: seq<Entry>): (r: seq<(string, real)>)
    ensures Keys(r) == KeptCities(es)
  {
    KeptCitiesCounted(es);
    ShareItems(KeptCities(es), CityCount(es).values, |es|)
  }

  /** Each key with its share of `n` */
  function ShareItems(ks: seq<string>, counts: map<string, int>, n: nat): (r: seq<(string, real)>)
    requires |ks| > 0 ==> n > 0
    requires forall i :: 0 <= i < |ks| ==> ks[i] in counts
    ensures Keys(r) == ks
    ensures forall i :: 0 <= i < |r| ==> r[i].1 == Share(counts[ks[i]], n)
  {
    var r := seq(|ks|, i requires 0 <= i < |ks| => (ks[i], Share(counts[ks[i]], n)));
    assert forall i :: 0 <= i < |ks| ==> Keys(r)[i] == ks[i];
    r
  }

  /** Each item is a kept city with its share */
  lemma {:induction false} CityShareItemAt(es: seq<Entry>, p: (string, real))
    requires p in CityShareItems(es)
    ensures p.0 in CityCount(es).values && |es| > 0 && p.1 == Share(CityCount(es).values[p.0], |es|)
  {
    var items := CityShareItems(es);
    KeptCitiesCounted(es);
    var i :| 0 <= i < |items| && items[i] == p;
    assert Keys(items)[i] == KeptCities(es)[i];
  }

  /** `sorted(dct_part.items(), key=lambda x: -x[1])` */
  function CityShare(es: seq<Entry>): (r: seq<(string, real)>)
    ensures NonIncreasing(r, (p: (string, real)) => p.1)
    ensures multiset(r) == multiset(CityShareItems(es))
    ensures forall c :: c in Keys(r) <==> c in KeptCities(es)
  {
    var r := SortDesc(CityShareItems(es), (p: (string, real)) => p.1);
    KeysOfPermutation(CityShareItems(es), r);
    r
  }

  /** What `parse_csv` returns */
  datatype Statistics = Statistics(
    yearsSalary: ODict<int, int>,
    yearsCount: ODict<int, int>,
    yearsSalaryFilt: ODict<int, int>,
    yearsCountFilt: ODict<int, int>,
    citySalary: seq<(string, int)>,
    cityShare: seq<(string, real)>)

  /** The statistics of the vacancies read from the file */
  function Analyse(es: seq<Entry>, profession: string): (r: Statistics)
    ensures r.yearsSalary.keys == r.yearsCount.keys == r.yearsSalaryFilt.keys == r.yearsCountFilt.keys == Unique(Years(es))
    ensures forall c :: c in Keys(r.citySalary) <==> c in Keys(r.cityShare)
  {
    Statistics(
      FloorAverages(YearSum(es), YearCount(es)),
      YearCount(es),
      FloorAverages(YearSumFilt(es, profession), YearCountFilt(es, profession)),
      YearCountFilt(es, profession),
      CitySalary(es),
      CityShare(es))
  }

  /** `DataSet(file_name, profession_name).parse_csv()` on the rows of the
      file; a row that cannot be read ends it with an exception (`None`) */
  function ParseCsv(csv: seq<seq<string>>, profession: string, toFloat: string -> Option<real>, toInt: string -> Option<int>): (r: Option<Statistics>)
    ensures r.Some? <==> Entries(Header(csv), DataRows(csv), toFloat, toInt).Some?
    ensures r.Some? ==> r.value == Analyse(Entries(Header(csv), DataRows(csv), toFloat, toInt).value, profession)
  {
    var rows := DataRows(csv);
    match Entries(Header(csv), rows, toFloat, toInt)
    case None => None
    case Some(es) => Some(Analyse(es, profession))
  }

  /** The first row, or none in an empty file */
  function Header(csv: seq<seq<string>>): seq<string> {
    if |csv| == 0 then [] else csv[0]
  }

  // ---- Years ----

  /** Each year counts the vacancies published in it */
  lemma {:induction false} YearCountAt(es: seq<Entry>, y: int)
    requires y in Years(es)
    ensures y in YearCount(es).values
    ensures YearCount(es).values[y] == CountWhere(es, (e: Entry) => e.year == y)
  {
    var d := YearZeros(es, 0);
    assert y in d.keys;
    var inYear := (e: Entry) => e.year == y;
    AccumulateAt(d, es, YearOf, AddOne, y, inYear);
    ReduceCount(Filter(es, inYear), AddOne);
  }

  /** Each year's profession count counts the vacancies published in it
      whose name contains the profession, and so never exceeds the count */
  lemma {:induction false} YearCountFiltAt(es: seq<Entry>, profession: string, y: int)
    requires y in Years(es)
    ensures y in YearCountFilt(es, profession).values
    ensures YearCountFilt(es, profession).values[y] ==
      CountWhere(es, (e: Entry) => e.year == y && Contains(e.name, profession))
    ensures YearCountFilt(es, profession).values[y] <= YearCount(es).values[y]
  {
    var d := YearZeros(es, 0);
    assert y in d.keys;
    var p := (e: Entry) => Contains(e.name, profession);
    var inYear := (e: Entry) => e.year == y;
    AccumulateAt(d, es, YearOf, AddOneIf(profession), y, inYear);
    var both := (e: Entry) => e.year == y && Contains(e.name, profession);
    ReduceCountIf(Filter(es, inYear), p, AddOneIf(profession));
    FilterFilter(es, inYear, p, both);
    YearCountAt(es, y);
  }

  /** Filtering by `p` and then by `q` keeps what `r`, their conjunction,
      keeps */
  lemma {:induction false} FilterFilter<T>(s: seq<T>, p: T -> bool, q: T -> bool, r: T -> bool)
    requires forall x :: r(x) == (p(x) && q(x))
    ensures Filter(Filter(s, p), q) == Filter(s, r)
  {
    if |s| > 0 {
      var init := s[..|s| - 1];
      FilterFilter(init, p, q, r);
      if p(s[|s| - 1]) {
        var f := Filter(s, p);
        assert f[..|f| - 1] == Filter(init, p);
      }
    }
  }

  /** The year counts add up to the number of vacancies */
  lemma {:induction false} YearCountTotal(es: seq<Entry>)
    ensures SumValues(YearCount(es)) == |es|
  {
    CountAllSum(YearZeros(es, 0), es, YearOf, AddOne);
  }

  /** The city counts, before any city is dropped, add up to the number of
      vacancies */
  lemma {:induction false} CityCountTotal(es: seq<Entry>)
    ensures SumValues(CityCount(es)) == |es|
  {
    CountAllSum(AreaZeros(es, 0), es, AreaOf, AddOne);
  }

  /** Each year's salary is the floor of the mean average salary of the
      vacancies published in it */
  lemma {:induction false} YearSalaryAt(es: seq<Entry>, profession: string, y: int)
    requires y in Years(es)
    ensures y in Analyse(es, profession).yearsSalary.values
    ensures CountWhere(es, (e: Entry) => e.year == y) > 0
    ensures Analyse(es, profession).yearsSalary.values[y] ==
      (TotalOf(Filter(es, (e: Entry) => e.year == y), (e: Entry) => e.average) /
       CountWhere(es, (e: Entry) => e.year == y) as real).Floor
  {
    YearSumAt(es, y);
    YearCountAt(es, y);
    var i :| 0 <= i < |es| && Years(es)[i] == y;
    assert es[i] in Filter(es, (e: Entry) => e.year == y);
  }

  /** Each year sums the average salaries of the vacancies published in it */
  lemma {:induction false} YearSumAt(es: seq<Entry>, y: int)
    requires y in Years(es)
    ensures y in YearSum(es).values
    ensures YearSum(es).values[y] == TotalOf(Filter(es, (e: Entry) => e.year == y), (e: Entry) => e.average)
  {
    var d := YearZeros(es, 0.0);
    assert y in d.keys;
    var inYear := (e: Entry) => e.year == y;
    AccumulateAt(d, es, YearOf, AddAverage, y, inYear);
    ReduceSumIf(Filter(es, inYear), (e: Entry) => true, (e: Entry) => e.average, AddAverage);
    FilterAll(Filter(es, inYear), (e: Entry) => true);
  }

  /** Each year's profession salary is the floor of the mean average salary
      of the profession's vacancies that year; without any it stays 0, and
      so does the sum it would have been taken of */
  lemma {:induction false} YearSalaryFiltAt(es: seq<Entry>, profession: string, y: int)
    requires y in Years(es)
    ensures y in Analyse(es, profession).yearsSalaryFilt.values
    ensures var matching := Filter(es, (e: Entry) => e.year == y && Contains(e.name, profession));
      && (|matching| == 0 ==> YearSumFilt(es, profession).values[y] == 0.0 && Analyse(es, profession).yearsSalaryFilt.values[y] == 0)
      && (|matching| > 0 ==>
            Analyse(es, profession).yearsSalaryFilt.values[y] == (TotalOf(matching, (e: Entry) => e.average) / |matching| as real).Floor)
  {
    YearSumFiltAt(es, profession, y);
    YearCountFiltAt(es, profession, y);
  }

  /** Each year sums the average salaries of the profession's vacancies
      published in it */
  lemma {:induction false} YearSumFiltAt(es: seq<Entry>, profession: string, y: int)
    requires y in Years(es)
    ensures y in YearSumFilt(es, profession).values
    ensures YearSumFilt(es, profession).values[y] ==
      TotalOf(Filter(es, (e: Entry) => e.year == y && Contains(e.name, profession)), (e: Entry) => e.average)
  {
    var d := YearZeros(es, 0.0);
    assert y in d.keys;
    var p := (e: Entry) => Contains(e.name, profession);
    var inYear := (e: Entry) => e.year == y;
    AccumulateAt(d, es, YearOf, AddAverageIf(profession), y, inYear);
    var both := (e: Entry) => e.year == y && Contains(e.name, profession);
    ReduceSumIf(Filter(es, inYear), p, (e: Entry) => e.average, AddAverageIf(profession));
    FilterFilter(es, inYear, p, both);
  }

  // ---- Cities ----

  /** Each city counts the vacancies in its area */
  lemma {:induction false} CityCountAt(es: seq<Entry>, c: string)
    requires c in Areas(es)
    ensures c in CityCount(es).values
    ensures CityCount(es).values[c] == CountWhere(es, (e: Entry) => e.areaName == c)
  {
    var d := AreaZeros(es, 0);
    assert c in d.keys;
    var inArea := (e: Entry) => e.areaName == c;
    AccumulateAt(d, es, AreaOf, AddOne, c, inArea);
    ReduceCount(Filter(es, inArea), AddOne);
  }

  /** Each city sums the average salaries of the vacancies in its area */
  lemma {:induction false} CitySumAt(es: seq<Entry>, c: string)
    requires c in Areas(es)
    ensures c in CitySum(es).values
    ensures CitySum(es).values[c] == TotalOf(Filter(es, (e: Entry) => e.areaName == c), (e: Entry) => e.average)
  {
    var d := AreaZeros(es, 0.0);
    assert c in d.keys;
    var inArea := (e: Entry) => e.areaName == c;
    AccumulateAt(d, es, AreaOf, AddAverage, c, inArea);
    ReduceSumIf(Filter(es, inArea), (e: Entry) => true, (e: Entry) => e.average, AddAverage);
    FilterAll(Filter(es, inArea), (e: Entry) => true);
  }

  /** The rounded share reaches 0.01 exactly when the city holds at least
      199 of every 20000 vacancies: 0.00995 is where rounding to four
      places reaches 0.01, ties going to the even 0.0100 */
  lemma {:induction false} KeptExactly(count: int, n: nat)
    requires n > 0
    ensures Kept(count, n) <==> 20000 * count >= 199 * n
    ensures Kept(count, n) ==> count > 0
  {
    var x := count as real / n as real;
    var y := x * 10000.0;
    RoundReaches100(y);
    assert RoundTo4(x) >= 0.01 <==> RoundHalfEven(y) >= 100;
    ScaledShare(count, n);
  }

  /** `round(y) >= 100` exactly when `y >= 99.5` */
  lemma {:induction false} RoundReaches100(y: real)
    ensures RoundHalfEven(y) >= 100 <==> y >= 99.5
  {
  }

  /** `count / n * 10000 >= 99.5` as a comparison of integers */
  lemma {:induction false} ScaledShare(count: int, n: nat)
    requires n > 0
    ensures (count as real / n as real) * 10000.0 >= 99.5 <==> 20000 * count >= 199 * n
  {
    var x := count as real / n as real;
    var k := n as real;
    assert x * k == count as real;
    ScaleByPositive(x * 20000.0, 199.0, k);
    assert (x * 20000.0) * k == 20000.0 * (x * k) == (20000 * count) as real;
    assert 199.0 * k == (199 * n) as real;
    assert x * 10000.0 >= 99.5 <==> x * 20000.0 >= 199.0;
  }

  /** Multiplying both sides by a positive number keeps an order */
  lemma {:induction false} ScaleByPositive(a: real, b: real, k: real)
    requires k > 0.0
    ensures a >= b <==> a * k >= b * k
  {
    if a >= b {
      assert a * k - b * k == (a - b) * k;
    } else {
      assert b * k - a * k == (b - a) * k;
    }
  }

  /** A city is listed in both outputs exactly when it holds at least 199
      of every 20000 vacancies */
  lemma {:induction false} CityListed(es: seq<Entry>, c: string)
    ensures c in Keys(CitySalary(es)) <==> c in Keys(CityShare(es))
    ensures c in Keys(CitySalary(es)) <==>
      c in Areas(es) && 20000 * CountWhere(es, (e: Entry) => e.areaName == c) >= 199 * |es|
  {
    var counts := CityCount(es);
    var kept := KeptCities(es);
    assert c in Keys(CitySalary(es)) <==> c in multiset(kept);
    assert c in Keys(CityShare(es)) <==> c in multiset(kept);
    if c in Areas(es) {
      CityCountAt(es, c);
      assert c in counts.keys;
      KeptExactly(counts.values[c], |es|);
    }
  }

  /** A city is in the area column exactly when it has an entry */
  lemma {:induction false} CityKnown(es: seq<Entry>, c: string)
    ensures c in CityCount(es).values <==> c in Areas(es)
  {
    assert c in Unique(Areas(es)) <==> c in Areas(es);
  }

  /** A listed city's salary is the floor of the mean average salary of
      the vacancies in its area */
  lemma {:induction false} CitySalaryAt(es: seq<Entry>, p: (string, int))
    requires p in CitySalary(es)
    ensures p.0 in Areas(es)
    ensures CountWhere(es, (e: Entry) => e.areaName == p.0) > 0
    ensures p.1 == (TotalOf(Filter(es, (e: Entry) => e.areaName == p.0), (e: Entry) => e.average) /
      CountWhere(es, (e: Entry) => e.areaName == p.0) as real).Floor
  {
    assert p in multiset(CitySalary(es));
    assert p in CitySalaryItems(es);
    CitySalaryItemAt(es, p);
    CityKnown(es, p.0);
    CityCountAt(es, p.0);
    CitySumAt(es, p.0);
  }

  /** A listed city's share is its fraction of the vacancies, rounded to
      four places */
  lemma {:induction false} CityShareAt(es: seq<Entry>, p: (string, real))
    requires p in CityShare(es)
    ensures p.0 in Areas(es) && |es| > 0
    ensures p.1 == RoundTo4(CountWhere(es, (e: Entry) => e.areaName == p.0) as real / |es| as real)
    ensures p.1 >= 0.01
  {
    assert p in multiset(CityShare(es));
    assert p in CityShareItems(es);
    CityShareItemAt(es, p);
    CityKnown(es, p.0);
    CityCountAt(es, p.0);
    var kept := KeptCities(es);
    assert p.0 in Keys(CityShareItems(es));
    var i :| 0 <= i < |kept| && kept[i] == p.0;
  }
}
