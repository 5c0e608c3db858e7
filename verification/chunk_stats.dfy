/** con_futures.py: statistics of each per-year chunk file, computed by a
    process pool, then folded into four dictionaries keyed by year. */
module ChunkStats {
  import opened Wrappers
  import opened Seqs
  import opened Text
  import opened Numbers
  import opened Dicts
  import opened Records

  /** The tuple `(year, average_salary, count, average_salary_profession, count_profession)` */
  datatype ChunkStat = ChunkStat(
    year: string,
    averageSalary: int,
    count: nat,
    averageSalaryProfession: int,
    countProfession: nat)

  /** `(salary_from + salary_to) * 0.5`, NaN when a bound is missing */
  function Midpoint(v: Vacancy): Option<real> {
    if v.salaryFrom.Some? && v.salaryTo.Some? then Some((v.salaryFrom.value + v.salaryTo.value) * 0.5)
    else None
  }

  function Midpoints(rows: seq<Vacancy>): (r: seq<Option<real>>)
    ensures |r| == |rows|
    ensures forall i :: 0 <= i < |rows| ==> r[i] == Midpoint(rows[i])
  {
    if |rows| == 0 then [] else Midpoints(rows[..|rows| - 1]) + [Midpoint(rows[|rows| - 1])]
  }

  /** `data['name'].str.contains(profession)`: case-sensitive substring */
  function ProfessionRows(rows: seq<Vacancy>, profession: string): seq<Vacancy> {
    Filter(rows, (v: Vacancy) => Contains(v.name, profession))
  }

  /** `get_data_from_chunk`: fails (None) when the chunk is empty or a mean
      is NaN, since `round(NaN)` raises */
  function GetDataFromChunk(rows: seq<Vacancy>, profession: string): (r: Option<ChunkStat>)
    ensures r.Some? <==>
      && |rows| > 0
      && CountPresent(Midpoints(rows)) > 0
      && CountPresent(Midpoints(ProfessionRows(rows, profession))) > 0
    ensures r.Some? ==>
      && r.value.year == YearOf(rows[0].publishedAt)
      && r.value.count == |rows|
      && r.value.countProfession <= r.value.count
      && Some(r.value.averageSalary) == RoundMean(Midpoints(rows))
      && Some(r.value.averageSalaryProfession) == RoundMean(Midpoints(ProfessionRows(rows, profession)))
  {
    var prof := ProfessionRows(rows, profession);
    var average := RoundMean(Midpoints(rows));
    var averageProfession := RoundMean(Midpoints(prof));
    if |rows| == 0 || average.None? || averageProfession.None? then None
    else Some(ChunkStat(YearOf(rows[0].publishedAt), average.value, |rows|, averageProfession.value, |prof|))
  }

  /** The profession count is the number of rows whose name contains the
      profession; each average is the rounded mean of the midpoints present
      in its rows */
  lemma {:induction false} ProfessionCount(rows: seq<Vacancy>, profession: string)
    requires GetDataFromChunk(rows, profession).Some?
    ensures var s := GetDataFromChunk(rows, profession).value;
      && s.countProfession == |ProfessionRows(rows, profession)|
      && (forall v :: v in ProfessionRows(rows, profession) <==> v in rows && Contains(v.name, profession))
      && s.averageSalary == RoundHalfEven(SumPresent(Midpoints(rows)) / CountPresent(Midpoints(rows)) as real)
      && s.averageSalaryProfession == RoundHalfEven(
           SumPresent(Midpoints(ProfessionRows(rows, profession))) /
           CountPresent(Midpoints(ProfessionRows(rows, profession))) as real)
  {
  }

  /** `get_analytics`: one tuple per directory entry, in listing order; an
      exception in any task ends the run */
  method GetAnalytics(chunks: seq<seq<Vacancy>>, profession: string) returns (raw: Option<seq<ChunkStat>>)
    ensures raw.Some? <==> forall i :: 0 <= i < |chunks| ==> GetDataFromChunk(chunks[i], profession).Some?
    ensures raw.Some? ==> |raw.value| == |chunks|
    ensures raw.Some? ==> forall i :: 0 <= i < |chunks| ==> GetDataFromChunk(chunks[i], profession) == Some(raw.value[i])
  {
    var acc: seq<ChunkStat> := [];
    var i := 0;
    while i < |chunks|
      invariant 0 <= i <= |chunks|
      invariant |acc| == i
      invariant forall k :: 0 <= k < i ==> GetDataFromChunk(chunks[k], profession) == Some(acc[k])
    {
      var s := GetDataFromChunk(chunks[i], profession);
      if s.None? {
        return None;
      }
      acc := acc + [s.value];
      i := i + 1;
    }
    return Some(acc);
  }

  /** `get_converted_data`: each tuple overwrites the entries of its year */
  function GetConvertedData(raw: seq<ChunkStat>): (r: YearTables)
    ensures SharedKeys(r)
  {
    if |raw| == 0 then YearTables(Empty(), Empty(), Empty(), Empty())
    else
      var t := GetConvertedData(raw[..|raw| - 1]);
      var s := raw[|raw| - 1];
      YearTables(
        Put(t.salary, s.year, s.averageSalary),
        Put(t.count, s.year, s.count),
        Put(t.salaryProfession, s.year, s.averageSalaryProfession),
        Put(t.countProfession, s.year, s.countProfession))
  }

  function StatYears(raw: seq<ChunkStat>): (r: seq<string>)
    ensures |r| == |raw|
    ensures forall i :: 0 <= i < |raw| ==> r[i] == raw[i].year
  {
    if |raw| == 0 then [] else StatYears(raw[..|raw| - 1]) + [raw[|raw| - 1].year]
  }

  /** The last tuple of `raw` whose year is `y` */
  function LastWithYear(raw: seq<ChunkStat>, y: string): (s: ChunkStat)
    requires y in StatYears(raw)
    ensures s in raw && s.year == y
  {
    var init := raw[..|raw| - 1];
    if raw[|raw| - 1].year == y then raw[|raw| - 1]
    else
      assert StatYears(raw) == StatYears(init) + [raw[|raw| - 1].year];
      LastWithYear(init, y)
  }

  /** The dictionaries' keys are the tuples' years in order of first appearance */
  lemma {:induction false} ConvertedDataKeys(raw: seq<ChunkStat>)
    ensures GetConvertedData(raw).salary.keys == Unique(StatYears(raw))
    ensures forall y :: y in GetConvertedData(raw).salary.values <==> y in StatYears(raw)
    ensures forall y :: y in GetConvertedData(raw).count.values <==> y in StatYears(raw)
    ensures forall y :: y in GetConvertedData(raw).salaryProfession.values <==> y in StatYears(raw)
    ensures forall y :: y in GetConvertedData(raw).countProfession.values <==> y in StatYears(raw)
  {
    if |raw| > 0 {
      var init := raw[..|raw| - 1];
      ConvertedDataKeys(init);
      assert StatYears(raw) == StatYears(init) + [raw[|raw| - 1].year];
      assert StatYears(raw)[..|raw| - 1] == StatYears(init);
    }
  }

  /** Each entry holds the matching field of the last tuple with that year */
  lemma {:induction false} ConvertedDataLastWins(raw: seq<ChunkStat>, y: string)
    requires y in StatYears(raw)
    ensures var t := GetConvertedData(raw);
      && y in t.salary.values && y in t.count.values
      && y in t.salaryProfession.values && y in t.countProfession.values
      && t.salary.values[y] == LastWithYear(raw, y).averageSalary
      && t.count.values[y] == LastWithYear(raw, y).count
      && t.salaryProfession.values[y] == LastWithYear(raw, y).averageSalaryProfession
      && t.countProfession.values[y] == LastWithYear(raw, y).countProfession
  {
    var init := raw[..|raw| - 1];
    assert StatYears(raw) == StatYears(init) + [raw[|raw| - 1].year];
    if raw[|raw| - 1].year != y {
      ConvertedDataLastWins(init, y);
    }
  }

  /** No two tuples carry the same year */
  ghost predicate DistinctYears(raw: seq<ChunkStat>) {
    forall i, j :: 0 <= i < j < |raw| ==> raw[i].year != raw[j].year
  }

  /** Reordered tuples carry the same years */
  lemma {:induction false} SameYears(raw: seq<ChunkStat>, raw': seq<ChunkStat>, y: string)
    requires multiset(raw) == multiset(raw')
    requires y in StatYears(raw)
    ensures y in StatYears(raw')
  {
    var s := LastWithYear(raw, y);
    assert s in multiset(raw');
    var j :| 0 <= j < |raw'| && raw'[j] == s;
    assert StatYears(raw')[j] == y;
  }

  /** With distinct years, the last tuple of a year is its only tuple */
  lemma {:induction false} SameLast(raw: seq<ChunkStat>, raw': seq<ChunkStat>, y: string)
    requires multiset(raw) == multiset(raw') && DistinctYears(raw)
    requires y in StatYears(raw) && y in StatYears(raw')
    ensures LastWithYear(raw, y) == LastWithYear(raw', y)
  {
    var s := LastWithYear(raw, y);
    var s' := LastWithYear(raw', y);
    assert s' in multiset(raw);
    var i :| 0 <= i < |raw| && raw[i] == s;
    var j :| 0 <= j < |raw| && raw[j] == s';
    assert i == j;
  }

  /** With pairwise distinct years, the folded mappings do not depend on the
      order in which the pool delivered the tuples */
  lemma {:induction false} ConvertedDataPermutation(raw: seq<ChunkStat>, raw': seq<ChunkStat>)
    requires multiset(raw) == multiset(raw')
    requires DistinctYears(raw)
    ensures GetConvertedData(raw).salary.values == GetConvertedData(raw').salary.values
    ensures GetConvertedData(raw).count.values == GetConvertedData(raw').count.values
    ensures GetConvertedData(raw).salaryProfession.values == GetConvertedData(raw').salaryProfession.values
    ensures GetConvertedData(raw).countProfession.values == GetConvertedData(raw').countProfession.values
  {
    var t := GetConvertedData(raw);
    var t' := GetConvertedData(raw');
    forall y | y in StatYears(raw)
      ensures y in StatYears(raw')
    {
      SameYears(raw, raw', y);
    }
    forall y | y in StatYears(raw')
      ensures y in StatYears(raw)
    {
      SameYears(raw', raw, y);
    }
    ConvertedDataKeys(raw);
    ConvertedDataKeys(raw');
    forall y | y in StatYears(raw)
      ensures t.salary.values[y] == t'.salary.values[y]
      ensures t.count.values[y] == t'.count.values[y]
      ensures t.salaryProfession.values[y] == t'.salaryProfession.values[y]
      ensures t.countProfession.values[y] == t'.countProfession.values[y]
    {
      PermutationAt(raw, raw', y);
    }
    SameMap(t.salary.values, t'.salary.values);
    SameMap(t.count.values, t'.count.values);
    SameMap(t.salaryProfession.values, t'.salaryProfession.values);
    SameMap(t.countProfession.values, t'.countProfession.values);
  }

  lemma {:induction false} SameMap(m: map<string, int>, m': map<string, int>)
    requires forall k :: k in m <==> k in m'
    requires forall k :: k in m ==> m[k] == m'[k]
    ensures m == m'
  {
  }

  lemma {:induction false} PermutationAt(raw: seq<ChunkStat>, raw': seq<ChunkStat>, y: string)
    requires multiset(raw) == multiset(raw') && DistinctYears(raw)
    requires y in StatYears(raw) && y in StatYears(raw')
    ensures var t := GetConvertedData(raw); var t' := GetConvertedData(raw');
      && y in t.salary.values && y in t'.salary.values
      && y in t.count.values && y in t'.count.values
      && y in t.salaryProfession.values && y in t'.salaryProfession.values
      && y in t.countProfession.values && y in t'.countProfession.values
      && t.salary.values[y] == t'.salary.values[y]
      && t.count.values[y] == t'.count.values[y]
      && t.salaryProfession.values[y] == t'.salaryProfession.values[y]
      && t.countProfession.values[y] == t'.countProfession.values[y]
  {
    SameLast(raw, raw', y);
    ConvertedDataLastWins(raw, y);
    ConvertedDataLastWins(raw', y);
  }

  /** A second tuple for a year silently replaces the first: nothing detects
      the collision, and the earlier tuple's figures are lost */
  lemma {:induction false} CollisionOverwrites(a: ChunkStat, b: ChunkStat)
    requires a.year == b.year
    ensures var t := GetConvertedData([a, b]);
      && t.salary.keys == [a.year]
      && t.salary.values[a.year] == b.averageSalary
      && t.count.values[a.year] == b.count
  {
    assert [a, b][..1] == [a];
    assert [a][..0] == [];
    assert GetConvertedData([]) == YearTables(Empty(), Empty(), Empty(), Empty());
    var t1 := GetConvertedData([a]);
    assert t1.salary == Put(Empty(), a.year, a.averageSalary);
  }
}
