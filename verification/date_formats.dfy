/** date_test.py: two ways of rewriting a `published_at` timestamp as
    `DD.MM.YYYY`, and the column of timestamps they are applied to. */
module DateFormats {
  import opened Wrappers
  import opened Seqs
  import opened Text

  /** `slice_test`: characters 8-9, 5-6 and 0-3, joined by dots */
  function SliceTest(date: string): (r: string)
    ensures |date| >= 10 ==> |r| == 10 && r[2] == '.' && r[5] == '.'
  {
    Slice(date, 8, 10) + "." + Slice(date, 5, 7) + "." + Take(date, 4)
  }

  /** `split_test`: the text before the first `T`, split at `-`, with its
      third, second and first pieces joined by dots; fewer than three
      pieces raise `IndexError` (`None`) */
  function SplitTest(date: string): (r: Option<string>)
    ensures r.None? <==> CountChar(Split(date, 'T')[0], '-') < 2
  {
    var parts := Split(Split(date, 'T')[0], '-');
    SplitLength(Split(date, 'T')[0], '-');
    if |parts| < 3 then None else Some(parts[2] + "." + parts[1] + "." + parts[0])
  }

  /** `YYYY-MM-DD`, alone or followed by `T` and a time */
  predicate IsoTimestamp(date: string) {
    && |date| >= 10
    && date[4] == '-' && date[7] == '-'
    && (forall i :: 0 <= i < 10 && i != 4 && i != 7 ==> IsDigit(date[i]))
    && (|date| == 10 || date[10] == 'T')
  }

  /** The date part of an ISO timestamp splits into year, month and day */
  lemma {:induction false} SplitIsoDate(date: string)
    requires IsoTimestamp(date)
    ensures Split(date, 'T')[0] == date[..10]
    ensures Split(date[..10], '-') == [date[..4], date[5..7], date[8..10]]
  {
    var d := date[..10];
    assert 'T' !in d by {
      forall i | 0 <= i < 10
        ensures d[i] != 'T'
      {
        assert d[i] == date[i];
      }
    }
    if |date| == 10 {
      assert d == date;
      SplitNoSeparator(date, 'T');
    } else {
      assert date == d + ['T'] + date[11..];
      SplitAtFirst(d, 'T', date[11..]);
    }
    assert '-' !in date[..4] && '-' !in date[5..7] && '-' !in date[8..10] by {
      assert forall i :: 0 <= i < 4 ==> date[..4][i] == date[i];
      assert forall i :: 0 <= i < 2 ==> date[5..7][i] == date[5 + i] && date[8..10][i] == date[8 + i];
    }
    assert d == date[..4] + ['-'] + (date[5..7] + ['-'] + date[8..10]);
    SplitAtFirst(date[..4], '-', date[5..7] + ['-'] + date[8..10]);
    SplitAtFirst(date[5..7], '-', date[8..10]);
    SplitNoSeparator(date[8..10], '-');
  }

  /** On ISO timestamps the two rewritings agree */
  lemma {:induction false} SplitMatchesSlice(date: string)
    requires IsoTimestamp(date)
    ensures SplitTest(date) == Some(SliceTest(date))
  {
    SplitIsoDate(date);
    assert Slice(date, 8, 10) == date[8..10];
    assert Slice(date, 5, 7) == date[5..7];
  }

  /** Where they differ: a bare year makes `split_test` fail, while
      `slice_test` still returns a string */
  lemma {:induction false} SplitTestFailsOnYear()
    ensures SplitTest("2022") == None
    ensures SliceTest("2022") == "..2022"
  {
    SplitNoSeparator("2022", 'T');
    SplitNoSeparator("2022", '-');
    assert Slice("2022", 8, 10) == [] && Slice("2022", 5, 7) == [];
  }

  /** The header row is recognised by a cell equal to `published_at` */
  predicate IsDataRow(row: seq<string>) {
    "published_at" !in row
  }

  /** The module-level list: field 5 of every row without a
      `published_at` cell; a shorter such row raises `IndexError` (`None`) */
  function ExtractDates(rows: seq<seq<string>>): (r: Option<seq<string>>)
    ensures r.Some? <==> forall i :: 0 <= i < |rows| && IsDataRow(rows[i]) ==> |rows[i]| > 5
    ensures r.Some? ==> |r.value| == |Filter(rows, IsDataRow)|
    ensures r.Some? ==> forall i :: 0 <= i < |r.value| ==> r.value[i] == Filter(rows, IsDataRow)[i][5]
  {
    if |rows| == 0 then Some([])
    else
      var init := rows[..|rows| - 1];
      var row := rows[|rows| - 1];
      assert Filter(rows, IsDataRow) == Filter(init, IsDataRow) + if IsDataRow(row) then [row] else [];
      assert forall i :: 0 <= i < |init| ==> init[i] == rows[i];
      match ExtractDates(init)
      case None => None
      case Some(dates) =>
        if !IsDataRow(row) then Some(dates)
        else if |row| <= 5 then None
        else Some(dates + [row[5]])
  }
}
