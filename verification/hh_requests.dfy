/** api3.py: the page requests sent to the hh.ru vacancy search for one
    day, and the six-column rows made from the vacancies they return. */
module HhRequests {
  import opened Wrappers
  import opened Seqs
  import opened Text
  import opened Records

  /** One search window: `date_from` and `date_to` */
  datatype Window = Window(from: string, to: string)

  /** The day is searched in three windows of eight hours */
  const Windows: seq<Window> := [
    Window("2022-12-12T00:00:00", "2022-12-12T08:00:00"),
    Window("2022-12-12T08:00:00", "2022-12-12T16:00:00"),
    Window("2022-12-12T16:00:00", "2022-12-13T00:00:00")]

  /** Each window is read in this many pages */
  const Pages: nat := 20

  /** The search address up to the page number */
  const SearchUrl := "https://api.hh.ru/vacancies?specialization=1&per_page=100&page="

  /** The request for one page of one window */
  function PageUrl(page: nat, w: Window): (r: string)
    ensures SearchUrl <= r
  {
    SearchUrl + (NatToString(page) + WindowQuery(w))
  }

  /** The part of a request after the page number */
  function WindowQuery(w: Window): (r: string)
    ensures |r| > 0 && r[0] == '&'
  {
    "&date_from=" + (w.from + ("&date_to=" + w.to))
  }

  /** `makeRequests`: pages 0 to 19 of each window, window after window */
  function MakeRequests(): (r: seq<string>)
    ensures |r| == |Windows| * Pages
    ensures forall k :: 0 <= k < |r| ==> r[k] == PageUrl(k % Pages, Windows[k / Pages])
  {
    seq(|Windows| * Pages, k requires 0 <= k < |Windows| * Pages => PageUrl(k % Pages, Windows[k / Pages]))
  }

  /** Two concatenations with equally long first parts agree part by part */
  lemma {:induction false} SplitEqual<T>(s: seq<T>, t: seq<T>, s': seq<T>, t': seq<T>)
    requires s + t == s' + t' && |s| == |s'|
    ensures s == s' && t == t'
  {
    assert s == (s + t)[..|s|] && s' == (s' + t')[..|s'|];
    assert t == (s + t)[|s|..] && t' == (s' + t')[|s'|..];
  }

  /** Where two concatenations first differ in length, the shorter first
      part is followed by a character of the longer one */
  lemma {:induction false} NextChar(a: string, x: string, b: string, y: string)
    requires a + x == b + y && |a| < |b| && |x| > 0
    ensures x[0] == b[|a|]
  {
    assert (a + x)[|a|] == x[0];
    assert (b + y)[|a|] == b[|a|];
  }

  /** A string of digits followed by a non-digit can be split off in one
      way only */
  lemma {:induction false} DigitsThenStop(a: string, x: string, b: string, y: string)
    requires forall i :: 0 <= i < |a| ==> IsDigit(a[i])
    requires forall i :: 0 <= i < |b| ==> IsDigit(b[i])
    requires |x| > 0 && !IsDigit(x[0]) && |y| > 0 && !IsDigit(y[0])
    requires a + x == b + y
    ensures a == b && x == y
  {
    if |a| < |b| {
      NextChar(a, x, b, y);
      assert false;
    } else if |b| < |a| {
      NextChar(b, y, a, x);
      assert false;
    } else {
      SplitEqual(a, x, b, y);
    }
  }

  /** Windows with equally long start times are told apart by their query */
  lemma {:induction false} WindowQueryInjective(v: Window, w: Window)
    requires |v.from| == |w.from|
    requires WindowQuery(v) == WindowQuery(w)
    ensures v == w
  {
    SplitEqual("&date_from=", v.from + ("&date_to=" + v.to), "&date_from=", w.from + ("&date_to=" + w.to));
    SplitEqual(v.from, "&date_to=" + v.to, w.from, "&date_to=" + w.to);
    SplitEqual("&date_to=", v.to, "&date_to=", w.to);
  }

  /** Two requests are equal only for the same page of the same window */
  lemma {:induction false} PageUrlInjective(p: nat, v: Window, q: nat, w: Window)
    requires |v.from| == |w.from|
    requires PageUrl(p, v) == PageUrl(q, w)
    ensures p == q && v == w
  {
    SplitEqual(SearchUrl, NatToString(p) + WindowQuery(v), SearchUrl, NatToString(q) + WindowQuery(w));
    DigitsThenStop(NatToString(p), WindowQuery(v), NatToString(q), WindowQuery(w));
    NatToStringInjective(p, q);
    WindowQueryInjective(v, w);
  }

  /** Equal requests sit at the same position */
  lemma {:induction false} RequestPosition(k: nat, l: nat)
    requires k < |MakeRequests()| && l < |MakeRequests()|
    requires MakeRequests()[k] == MakeRequests()[l]
    ensures k == l
  {
    PageUrlInjective(k % Pages, Windows[k / Pages], l % Pages, Windows[l / Pages]);
    assert k / Pages == l / Pages;
  }

  /** The sixty requests are all different */
  lemma {:induction false} MakeRequestsDistinct()
    ensures Distinct(MakeRequests())
  {
    var r := MakeRequests();
    forall k, l | 0 <= k < |r| && 0 <= l < |r| && r[k] == r[l]
      ensures k == l
    {
      RequestPosition(k, l);
    }
  }

  /** The `salary` object of a vacancy; a field may be null */
  datatype HhSalary = HhSalary(from: Option<real>, to: Option<real>, currency: Option<string>)

  /** The fields of one returned vacancy that are read */
  datatype HhVacancy = HhVacancy(name: string, areaName: string, publishedAt: string, salary: Option<HhSalary>)

  /** `parse_vac_for_csv`: the six columns in header order; a null salary
      leaves all three salary columns empty */
  function ParseVacForCsv(v: HhVacancy): (r: Vacancy)
    ensures r.name == v.name && r.areaName == v.areaName && r.publishedAt == v.publishedAt
    ensures v.salary.None? ==> r.salaryFrom.None? && r.salaryTo.None? && r.salaryCurrency.None?
    ensures v.salary.Some? ==>
      r.salaryFrom == v.salary.value.from && r.salaryTo == v.salary.value.to && r.salaryCurrency == v.salary.value.currency
  {
    match v.salary
    case None => Vacancy(v.name, None, None, None, v.areaName, v.publishedAt)
    case Some(s) => Vacancy(v.name, s.from, s.to, s.currency, v.areaName, v.publishedAt)
  }

  /** Reads a row back: three empty salary columns stand for a null salary */
  function UnparseVac(r: Vacancy): HhVacancy {
    if r.salaryFrom.None? && r.salaryTo.None? && r.salaryCurrency.None? then
      HhVacancy(r.name, r.areaName, r.publishedAt, None)
    else
      HhVacancy(r.name, r.areaName, r.publishedAt, Some(HhSalary(r.salaryFrom, r.salaryTo, r.salaryCurrency)))
  }

  /** A row keeps everything of its vacancy, except that a salary object
      whose three fields are all null reads like a null salary */
  lemma {:induction false} ParseVacRoundTrip(v: HhVacancy)
    ensures UnparseVac(ParseVacForCsv(v)) == v <==> v.salary != Some(HhSalary(None, None, None))
  {
  }

  /** Rows from all responses */
  function TotalItems(responses: seq<seq<HhVacancy>>): nat {
    if |responses| == 0 then 0 else TotalItems(responses[..|responses| - 1]) + |responses[|responses| - 1]|
  }

  /** `make_csv`: one row per returned vacancy, response after response */
  function MakeCsv(responses: seq<seq<HhVacancy>>): (r: seq<Vacancy>)
    ensures |r| == TotalItems(responses)
  {
    if |responses| == 0 then []
    else
      var last := responses[|responses| - 1];
      MakeCsv(responses[..|responses| - 1]) + seq(|last|, j requires 0 <= j < |last| => ParseVacForCsv(last[j]))
  }

  /** Later responses come after all the rows of earlier ones */
  lemma {:induction false} TotalItemsPrefix(responses: seq<seq<HhVacancy>>, k: nat)
    requires k < |responses|
    ensures TotalItems(responses[..k]) + |responses[k]| <= TotalItems(responses)
    decreases |responses|
  {
    if k < |responses| - 1 {
      var init := responses[..|responses| - 1];
      assert init[..k] == responses[..k];
      TotalItemsPrefix(init, k);
    } else {
      assert responses[..|responses| - 1] == responses[..k];
    }
  }

  /** Vacancy `j` of response `k` is the row after all rows of the earlier
      responses and the first `j` of its own */
  lemma {:induction false} MakeCsvAt(responses: seq<seq<HhVacancy>>, k: nat, j: nat)
    requires k < |responses| && j < |responses[k]|
    ensures TotalItems(responses[..k]) + j < |MakeCsv(responses)|
    ensures MakeCsv(responses)[TotalItems(responses[..k]) + j] == ParseVacForCsv(responses[k][j])
    decreases |responses|
  {
    TotalItemsPrefix(responses, k);
    var init := responses[..|responses| - 1];
    if k < |responses| - 1 {
      assert init[..k] == responses[..k];
      MakeCsvAt(init, k, j);
    } else {
      assert init == responses[..k];
    }
  }

  /** Every row is the row of some returned vacancy */
  lemma {:induction false} MakeCsvFrom(responses: seq<seq<HhVacancy>>, n: nat) returns (k: nat, j: nat)
    requires n < |MakeCsv(responses)|
    ensures k < |responses| && j < |responses[k]|
    ensures n == TotalItems(responses[..k]) + j
    ensures MakeCsv(responses)[n] == ParseVacForCsv(responses[k][j])
    decreases |responses|
  {
    var init := responses[..|responses| - 1];
    if n < TotalItems(init) {
      k, j := MakeCsvFrom(init, n);
      assert init[..k] == responses[..k];
    } else {
      k, j := |responses| - 1, n - TotalItems(init);
      assert init == responses[..k];
    }
  }
}
