/** thread.py: splitting the vacancy table into one file per year.
    Each year's file is written by its own thread; here the writes are the
    list of `(path, rows)` pairs the threads are started with. */
module YearSplit {
  import opened Seqs
  import opened Text
  import opened Records

  /** The arguments of one `makePartsCsv` thread */
  datatype Partition = Partition(year: string, path: string, rows: seq<Vacancy>)

  /** `published_at[:4]` of every row, in row order */
  function RowYears(rows: seq<Vacancy>): (r: seq<string>)
    ensures |r| == |rows|
    ensures forall i :: 0 <= i < |rows| ==> r[i] == YearOf(rows[i].publishedAt)
  {
    if |rows| == 0 then []
    else RowYears(rows[..|rows| - 1]) + [YearOf(rows[|rows| - 1].publishedAt)]
  }

  /** The row filter `published_at.str.contains(year)`: a substring test */
  predicate Selects(year: string, v: Vacancy) {
    Contains(v.publishedAt, year)
  }

  /** `f'split_files/vacancies_by_{year}.csv'` */
  function PartitionPath(year: string): string {
    "split_files/vacancies_by_" + year + ".csv"
  }

  /** The rows handed to the thread for `year` */
  function SelectYear(rows: seq<Vacancy>, year: string): seq<Vacancy> {
    Filter(rows, (v: Vacancy) => Selects(year, v))
  }

  /** `DataSet.makeResult`: one partition per distinct year, in order of first appearance */
  function MakeResult(rows: seq<Vacancy>): (r: seq<Partition>)
    ensures forall i :: 0 <= i < |r| ==> r[i].path == PartitionPath(r[i].year)
  {
    var years := Unique(RowYears(rows));
    seq(|years|, i requires 0 <= i < |years| =>
      Partition(years[i], PartitionPath(years[i]), SelectYear(rows, years[i])))
  }

  /** The years of the partitions, in order */
  function PartitionYears(ps: seq<Partition>): (r: seq<string>)
    ensures |r| == |ps|
    ensures forall i :: 0 <= i < |ps| ==> r[i] == ps[i].year
  {
    if |ps| == 0 then [] else PartitionYears(ps[..|ps| - 1]) + [ps[|ps| - 1].year]
  }

  /** Exactly one partition per distinct `published_at[:4]`, listed in order
      of first appearance */
  lemma {:induction false} PartitionPerYear(rows: seq<Vacancy>)
    ensures var ys := PartitionYears(MakeResult(rows));
      && Distinct(ys)
      && (forall i :: 0 <= i < |ys| ==> ys[i] in RowYears(rows))
      && (forall j :: 0 <= j < |rows| ==> YearOf(rows[j].publishedAt) in ys)
      && (forall i, k :: 0 <= i < k < |ys| ==>
            FirstIndex(RowYears(rows), ys[i]) < FirstIndex(RowYears(rows), ys[k]))
  {
    var ys := PartitionYears(MakeResult(rows));
    assert ys == Unique(RowYears(rows));
    UniqueFirstAppearance(RowYears(rows));
  }

  /** A partition holds exactly the rows whose `published_at` contains its
      year anywhere, in their original order */
  lemma {:induction false} PartitionContents(rows: seq<Vacancy>, i: nat)
    requires i < |MakeResult(rows)|
    ensures var p := MakeResult(rows)[i];
      && (forall v :: v in p.rows <==> v in rows && Contains(v.publishedAt, p.year))
      && IsSubsequence(p.rows, rows)
  {
    var p := MakeResult(rows)[i];
    FilterIsSubsequence(rows, (v: Vacancy) => Selects(p.year, v));
  }

  /** Every row is selected into the partition of its own year, so the
      partitions cover the input */
  lemma {:induction false} PartitionsCover(rows: seq<Vacancy>, v: Vacancy)
    requires v in rows
    ensures exists i ::
              && 0 <= i < |MakeResult(rows)|
              && MakeResult(rows)[i].year == YearOf(v.publishedAt)
              && v in MakeResult(rows)[i].rows
  {
    var r := MakeResult(rows);
    var j :| 0 <= j < |rows| && rows[j] == v;
    PartitionPerYear(rows);
    var ys := PartitionYears(r);
    var i :| 0 <= i < |ys| && ys[i] == YearOf(v.publishedAt);
    ContainsPrefix(v.publishedAt, YearOf(v.publishedAt));
    PartitionContents(rows, i);
  }

  /** No row's timestamp contains the year of a partition other than its own */
  ghost predicate NoForeignYear(rows: seq<Vacancy>) {
    forall v, i ::
      (v in rows && 0 <= i < |MakeResult(rows)| && Contains(v.publishedAt, MakeResult(rows)[i].year))
      ==> MakeResult(rows)[i].year == YearOf(v.publishedAt)
  }

  /** No row lands in two partitions */
  ghost predicate PairwiseDisjoint(ps: seq<Partition>) {
    forall v, i, j :: 0 <= i < j < |ps| && v in ps[i].rows ==> v !in ps[j].rows
  }

  /** The partitions are pairwise disjoint exactly when no timestamp contains
      a second year; the substring test does not enforce this */
  lemma {:induction false} DisjointIffNoForeignYear(rows: seq<Vacancy>)
    ensures PairwiseDisjoint(MakeResult(rows)) <==> NoForeignYear(rows)
  {
    var r := MakeResult(rows);
    PartitionPerYear(rows);
    var ys := PartitionYears(r);
    if NoForeignYear(rows) {
      forall v, i, j | 0 <= i < j < |r| && v in r[i].rows
        ensures v !in r[j].rows
      {
        PartitionContents(rows, i);
        PartitionContents(rows, j);
        assert ys[i] != ys[j];
      }
    }
    if !NoForeignYear(rows) {
      var v, i :| v in rows && 0 <= i < |r| && Contains(v.publishedAt, r[i].year) &&
        r[i].year != YearOf(v.publishedAt);
      PartitionsCover(rows, v);
      var k :| 0 <= k < |r| && r[k].year == YearOf(v.publishedAt) && v in r[k].rows;
      PartitionContents(rows, i);
      assert v in r[i].rows && i != k;
    }
  }

  /** Distinct years are written to distinct paths */
  lemma {:induction false} PathInjective(a: string, b: string)
    requires PartitionPath(a) == PartitionPath(b)
    ensures a == b
  {
    var n := |"split_files/vacancies_by_"|;
    assert |a| == |b|;
    assert a == PartitionPath(a)[n..n + |a|];
    assert b == PartitionPath(b)[n..n + |b|];
  }

  /** Different partitions never share an output file */
  lemma {:induction false} PathsDistinct(rows: seq<Vacancy>)
    ensures forall i, j :: 0 <= i < j < |MakeResult(rows)| ==>
      MakeResult(rows)[i].path != MakeResult(rows)[j].path
  {
    PartitionPerYear(rows);
    var r := MakeResult(rows);
    forall i, j | 0 <= i < j < |r|
      ensures r[i].path != r[j].path
    {
      assert PartitionYears(r)[i] != PartitionYears(r)[j];
      if r[i].path == r[j].path {
        PathInjective(r[i].year, r[j].year);
      }
    }
  }
}
