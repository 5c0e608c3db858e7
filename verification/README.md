# Vacancy analytics, modelled in Dafny

This project models the computational core of a set of Python scripts that
analyse job vacancies (name, salary bounds, currency, area, publication
timestamp) exported from hh.ru. It covers six groups of logic:

- **Aggregation by key.**
  - `DataSet.parse_csv` and `Vacancy.get_average` in `main.py`: the row
    filter, the year and city dictionaries, the city share threshold, the
    floor averages and the descending sort.
  - The per-chunk statistics tuple and its fold into four year dictionaries
    in `con_futures.py`.
  - The pandas `groupby` reports of `342.py` (per year) and `343.py` (per
    city, with a top-ten cut, and per year for one profession in one city).
- **Partitioning by year** in `thread.py`.
- **Salary normalisation** (`get_salary_row`) in `api2.py` and `sql2.py`,
  proved to agree, and the `published_at` column assignment of `sql2.py`.
- **Central-bank rate helpers** in `api_cb.py`:
  - the two date rewritings and their composition;
  - currency counts, frequencies and the popular-currency filter;
  - request URLs and the column-aligned rate table.
- **The hh.ru request list and vacancy flattening** in `api3.py`.
- **The two date reformatters and the column extraction** in `date_test.py`.

Python dictionaries are modelled as `Dicts.ODict`, an ordered key list
paired with a map, so that insertion order is part of the model. A new key
goes last and an overwritten key keeps its place.

pandas `NaN` becomes `Option.None`. A `round` of a `NaN` mean raises in
Python; here it is the failure (`None`) of the whole computation.

Salaries and rates are exact `real`s:

- Python's `round` is `Numbers.RoundHalfEven`, with ties going to the even
  integer.
- `round(x, 4)` is `RoundTo4` and `round(x, 6)` is `RoundTo6`. Each lands on
  the grid of its decimal place, and a tie goes to the even multiple.
- `math.floor` is `.Floor`.

Each Python loop is modelled as a fold over prefixes, so the dictionaries it
builds are definitions rather than mutable state. Every operation has
partner lemmas that relate its result to an independent description. For
example:

- a year's count is the number of vacancies of that year;
- an entry of the folded dictionaries is the matching field of the last
  tuple with that year;
- a city is kept exactly when an integer inequality holds;
- both copies of `get_salary_row` agree.

Three behaviours of the code are worth stating on their own:

- **Duplicate years in `con_futures.py`.** `get_converted_data` overwrites
  a duplicate year silently: the last chunk tuple with that year wins
  (`ChunkStats.ConvertedDataLastWins`, `ChunkStats.CollisionOverwrites`).
- **Years without matching vacancies.**
  - `main.py` keeps the initial 0 for a year without vacancies of the
    profession (`MainStats.YearSalaryFiltAt`).
  - `con_futures.py`, `342.py` and `343.py` call `round` on the `NaN` mean
    of an empty subset, which raises. The model makes that a failure.
- **Repeated header titles.** `dict(zip(titles, row))` keeps the last
  column with a given title, and `MainRows.Cell` does the same.

## Model

| member | source | states |
|---|---|---|
| MainRows.DataRows | main.py:17-25 | The header row is never data. A later row is kept exactly when it has as many cells as the header and no empty cell. Every such row is kept. |
| MainRows.DataRowsInOrder | main.py:17-25 | The kept rows are a subsequence of the file's rows, in file order. |
| MainRows.Cell | main.py:23 | A column lookup in `dict(zip(titles, row))` fails exactly when the title is absent. Otherwise it returns the cell under the last column with that title. |
| MainRows.CellDistinct | main.py:23 | Under a header without repeated titles, each title yields its own column's cell. |
| MainRows.MakeVacancy | main.py:67-72 | A vacancy is built exactly when all six columns exist and both salary bounds convert to floats. Its fields are the cells of their columns. |
| MainRows.MakeVacancyByPosition | main.py:67-72 | Under the standard six-column header, the vacancy is read off the row by position. |
| MainRows.GetAverage | main.py:74-91 | The rouble average exists exactly for the ten currencies of the `currency_to_rub` table. |
| MainRows.GetAverageBetween | main.py:74-91 | Every table rate is positive. The average is the rate times the midpoint of the bounds and lies between the two converted bounds. For RUR it is the plain midpoint. |
| MainRows.RowEntry | main.py:22-25 | A row yields an entry exactly when its vacancy is built, its currency is in the table, and the first four characters of `published_at` parse as an integer year. The entry carries the name, rouble average, area and that year. |
| MainRows.Entries | main.py:22-25 | Reading the data rows succeeds exactly when every row can be read. The entries are then the rows' entries, one per row, in order. |
| KeyFold.PutAll | main.py:32-38 | The initialising loop gives a dictionary whose keys are the distinct keys in first-appearance order, each mapped to the initial value. |
| KeyFold.Accumulate | main.py:39-46 | The accumulating loop keeps the key list and key set of the dictionary it updates. |
| KeyFold.AccumulateAt | main.py:39-46 | After the loop, a key's value is its initial value folded over exactly the rows with that key, in order. |
| KeyFold.CountAllSum | main.py:40-41 | Counting every row under its key from all-zero counts makes the counts add up to the number of rows. |
| MainStats.YearZeros | main.py:35-38 | The year dictionaries start with one entry per distinct year of the data, in first-appearance order, all zero. |
| MainStats.AreaZeros | main.py:33-34 | The city dictionaries start with one entry per distinct area, in first-appearance order, all zero. |
| MainStats.YearCount | main.py:41 | The year counts have exactly the keys of the initial year dictionary. |
| MainStats.YearSum | main.py:42 | The year salary sums have exactly the keys of the initial year dictionary. |
| MainStats.YearCountFilt | main.py:44-45 | The profession counts have exactly the keys of the initial year dictionary, including years without matching vacancies. |
| MainStats.YearSumFilt | main.py:44-46 | The profession salary sums have exactly the keys of the initial year dictionary. |
| MainStats.CityCount | main.py:40 | The city counts have exactly the keys of the initial city dictionary. |
| MainStats.CitySum | main.py:43 | The city salary sums have exactly the keys of the initial city dictionary. |
| MainStats.FloorAverages | main.py:57-61 | Turning sums into floor averages keeps the key list of the sums. |
| MainStats.Share | main.py:56 | A reported share is a multiple of 0.0001 within half a unit of count / number of vacancies; at a tie it is the even multiple. |
| MainStats.KeptCities | main.py:47-53 | Every city left after the deletions is counted and its rounded share is not below 0.01. |
| MainStats.KeptCitiesCounted | main.py:47-55 | Every kept city has a salary sum and a positive count, so its average is defined. |
| MainStats.CitySalaryItemAt | main.py:54-55 | Each city-salary item is a kept city with the floor of its salary sum over its positive count. |
| MainStats.CitySalary | main.py:62 | The city salaries are in non-increasing salary order. They are a permutation of the unsorted items and list exactly the kept cities. |
| MainStats.CityShareItems | main.py:56 | `dct_part` lists exactly the kept cities, in the same order as the city salaries. |
| MainStats.CityShareItemAt | main.py:56 | Each share item is a kept city with its rounded count / number of vacancies. |
| MainStats.CityShare | main.py:63 | The city shares are in non-increasing share order. They are a permutation of the unsorted items and list exactly the kept cities. |
| MainStats.Analyse | main.py:26-64 | The four year dictionaries have the same key list, the distinct years of the data. The two city outputs list the same cities. |
| MainStats.ParseCsv | main.py:12-64 | `parse_csv` fails exactly when some kept row cannot be read. Otherwise it returns the statistics of the entries read from the kept rows. |
| MainStats.YearCountAt | main.py:39-41 | A year's count is the number of vacancies published in that year. |
| MainStats.YearCountFiltAt | main.py:44-45 | A year's profession count is the number of that year's vacancies whose name contains the profession as a case-sensitive substring. It is at most the year's count. |
| MainStats.YearCountTotal | main.py:41 | The year counts add up to the number of vacancies. |
| MainStats.CityCountTotal | main.py:40 | The city counts add up to the number of vacancies. |
| MainStats.YearSumAt | main.py:42 | A year's salary sum is the total of the averages of the vacancies published that year. |
| MainStats.YearSalaryAt | main.py:57-59 | Every listed year has vacancies. Its salary is the floor of the mean average over that year's vacancies. |
| MainStats.YearSumFiltAt | main.py:44-46 | A year's profession salary sum is the total of the averages of that year's matching vacancies. |
| MainStats.YearSalaryFiltAt | main.py:60-61 | A year without matching vacancies keeps profession salary 0, not "no data". Otherwise the value is the floor of the mean average of the matching vacancies. |
| MainStats.CityCountAt | main.py:40 | A city's count is the number of vacancies in that area. |
| MainStats.CitySumAt | main.py:43 | A city's salary sum is the total of the averages of the vacancies in that area. |
| MainStats.KeptExactly | main.py:49 | `round(count / n, 4) < 0.01` fails exactly when 20000 * count >= 199 * n, so a kept city has at least one vacancy. |
| MainStats.CityKnown | main.py:32-34 | A city has a count entry exactly when it occurs in the area column. |
| MainStats.CityListed | main.py:47-56 | The city-salary and city-share outputs list the same cities: exactly the areas whose count c satisfies 20000 * c >= 199 * (number of vacancies). |
| MainStats.CitySalaryAt | main.py:54-55 | Each city-salary pair is an area with vacancies, paired with the floor of the mean average over its vacancies. |
| MainStats.CityShareAt | main.py:56 | Each city-share pair is an area paired with its count / number of vacancies rounded to four places, which is at least 0.01. |
| ChunkStats.Midpoints | con_futures.py:31-32 | Each row's salary is the midpoint of its two bounds, or NaN (`None`) when a bound is missing. |
| ChunkStats.GetDataFromChunk | con_futures.py:34-53 | A chunk yields its tuple exactly when it is non-empty and both the overall mean and the profession mean exist. The year is the first row's `published_at[:4]`. The count is the row count, and the profession count is at most the count. Each average is the rounded mean of its rows' midpoints. |
| ChunkStats.ProfessionCount | con_futures.py:46-51 | The profession count is the number of rows whose name contains the profession as a case-sensitive substring. The overall average and the profession average are each the half-even rounding of the sum over the count of the midpoints present in their rows. |
| ChunkStats.GetAnalytics | con_futures.py:25-29 | The collected tuples exist exactly when every chunk succeeds. There is then one tuple per chunk, in listing order, each equal to that chunk's own result. |
| ChunkStats.GetConvertedData | con_futures.py:55-63 | The four year dictionaries share one key list. |
| ChunkStats.ConvertedDataKeys | con_futures.py:58-63 | The key list is the tuples' distinct years in first-appearance order. Each dictionary's key set is the set of tuple years. |
| ChunkStats.ConvertedDataLastWins | con_futures.py:59-63 | Each year's four entries are the fields of the last tuple with that year. A duplicate year silently overwrites the earlier one. |
| ChunkStats.CollisionOverwrites | con_futures.py:59-63 | Two tuples of the same year leave a single key holding the second tuple's figures. |
| ChunkStats.ConvertedDataPermutation | con_futures.py:59-63 | When all tuple years are distinct, reordering the tuples leaves the four year-to-value maps unchanged. |
| YearSplit.RowYears | thread.py:10 | The year of each row is its `published_at[:4]`, in row order. |
| YearSplit.MakeResult | thread.py:9-14 | Every partition's file is `split_files/vacancies_by_<year>.csv`. |
| YearSplit.PartitionPerYear | thread.py:10 | There is one partition per distinct year of the rows and no other, in order of each year's first appearance. |
| YearSplit.PartitionContents | thread.py:11-12 | A partition holds exactly the rows whose `published_at` contains its year anywhere, not only at the start. The rows keep their original order. |
| YearSplit.PartitionsCover | thread.py:10-12 | Every row lands in the partition of its own year, so the partitions cover the input. |
| YearSplit.DisjointIffNoForeignYear | thread.py:11 | The partitions are pairwise disjoint exactly when no row's timestamp contains the year of another partition. |
| YearSplit.PathInjective | thread.py:13 | Different years give different file names. |
| YearSplit.PathsDistinct | thread.py:13 | No two partitions write to the same file. |
| Records.RowYears | 342.py:38 | The `year` column is `published_at[:4]` of every row, in row order. |
| YearReport.AnaliticByYear | 342.py:21-31 | A year group yields its figures exactly when both the group's and the profession subset's salary means exist. The count is the group size, at least the profession count. |
| YearReport.FiguresValues | 342.py:28-31 | The figures are the group size, the profession subset's size, and the rounded mean salaries of the group and of the subset. |
| YearReport.FileAnalyticSucceeds | 342.py:33-47 | `get_file_analytic` succeeds exactly when every year present has salaries both overall and for the profession. |
| YearReport.FileAnalyticKeys | 342.py:38-46 | The four dictionaries share one key list. It is strictly ascending, so groups are visited in ascending year order, and it holds exactly the years of the data. |
| YearReport.FileAnalyticAt | 342.py:41-46 | Each year's entries are its group's size, its profession count (at most the size), and the rounded means of the group and of the profession subset. |
| YearReport.ProfessionRowsIgnoreCase | 342.py:28 | With `case=False` matching, two professions that lower-case alike select the same rows. |
| YearReport.FileAnalyticIgnoresCase | 342.py:28 | The results depend on the profession only through its lower-case form, so the `.lower()` applied to the input at 342.py:63 changes nothing. |
| YearReport.Statistic | 342.py:56 | The table has one row per key of the salary dictionary, in key order. |
| YearReport.StatisticYears | 342.py:56 | A year has a table row exactly when it is a key. Ascending keys give rows in ascending year order. |
| YearReport.Report | 342.py:54-56 | The table is built exactly when `get_file_analytic` succeeds. |
| YearReport.ReportYears | 342.py:54-56 | The table has exactly one row per year of the data, in ascending year order. |
| YearReport.ReportRow | 342.py:54-56 | Each row `[year, salary, prof_salary, count, prof_count]` holds that year's rounded means and group sizes. |
| YearFold.FoldYearsSucceeds | 342.py:41-46 | The per-year loop completes exactly when every visited year's figures exist. |
| YearFold.FoldYearsKeys | 342.py:40-47 | After a successful loop over distinct years, all four dictionaries list exactly those years, in visiting order. |
| YearFold.FoldYearsAt | 342.py:41-46 | After a successful loop, each year's four entries are its own figures. |
| Tally.ValueCounts | 343.py:30 | `value_counts()` is ordered by non-increasing count and is a permutation of the first-appearance counts. |
| Tally.ValueCountsContents | 343.py:30 | Each value of the column is listed exactly once, with its positive number of occurrences, and nothing else is listed. |
| Tally.ValueCountsTotal | 343.py:30 | The counts add up to the length of the column. |
| CityReport.Shares | 343.py:31-32 | Each city keeps its place and is paired with its share of the rows, rounded to four places. |
| CityReport.CityPartContents | 343.py:30-32 | `city_part` lists each city at most once. It lists exactly the areas whose rounded share is strictly above 0.01, each paired with that share. |
| CityReport.CityKept | 343.py:31-32 | A city is in `city_part` exactly when it occurs in the data and its rounded share exceeds 0.01. |
| CityReport.CityPartOrdered | 343.py:30-32 | `city_part` is ordered by non-increasing count, and therefore by non-increasing share. |
| CityReport.PartCityTop | 343.py:33 | `dict_part_city` is the first at most ten entries of `city_part`. Any kept city left out is outnumbered by all ten listed ones. |
| CityReport.SalaryByCitySucceeds | 343.py:35-36 | `salary_by_city` succeeds exactly when every kept city has at least one salary. |
| CityReport.KeptCityLacksSalary | 343.py:36 | A failed run has a kept city without any salary. |
| CityReport.KeptCityHasSalary | 343.py:36 | In a successful run, every kept city has a salary. |
| CityReport.SalaryByCityContents | 343.py:35-36 | `salary_by_city` covers only the kept cities, in ascending city order, each with the rounded mean salary of its rows. |
| CityReport.SalaryCityTop | 343.py:37 | `dict_sal_city` has at most ten entries, ordered by non-increasing salary, all taken from `salary_by_city`. Any entry left out earns no more than each of the ten listed ones. |
| CityFold.CollectKeptSucceeds | 343.py:36 | The dict comprehension over the city groups completes exactly when every kept city it visits has a salary. |
| CityFold.CollectKeptContents | 343.py:36 | The comprehension lists the kept cities in visiting order, each with its own salary. |
| CityReport.SelectRowsSpec | 343.py:45-46 | The selected rows are exactly those whose name contains the profession case-insensitively and whose area equals the chosen one. They keep their order. |
| CityReport.GroupSalaryCount | 343.py:51-53 | A year group yields figures exactly when it has a salary. The figures are its rounded mean salary and its size. |
| CityFold.FoldSalaryCountKeys | 343.py:49-54 | After a successful loop over distinct years, both dictionaries list exactly those years, in visiting order. |
| CityFold.FoldSalaryCountAt | 343.py:51-53 | After a successful loop, each year's salary and count are its own group's figures. |
| CityReport.SalaryCountByYearSucceeds | 343.py:47-54 | `get_data_for_one` succeeds exactly when every year of the selected rows has a salary. |
| CityReport.SalaryCountByYearContents | 343.py:47-54 | `salary_prof` and `count` share one ascending key list: the years of the selected rows. Each count is its group's size and each salary its group's rounded mean. |
| CityReport.YearsAndArea | 343.py:64 | `years_and_area` has one `[year, salary, count]` row per key of `count`, in key order, holding both dictionaries' values. |
| CityReport.AreaTable | 343.py:61-64 | The table is built exactly when `get_data_for_one` succeeds. |
| CityReport.AreaTableRows | 343.py:61-64 | The rows are in ascending year order, one per year of the selected rows. Each holds that year's group size and rounded mean salary. |
| SalaryApi.RateDate | api2.py:44 | The rate month is the first seven characters of the timestamp (all of it if shorter), a prefix of it. |
| SalaryApi.ApiRateFirstRow | api2.py:19-33 | The rate is the currency's cell in the first table row of the month. It is `None` for an unknown column, a month without rows, or an empty cell. |
| SalaryApi.BaseBounds | api2.py:53-59 | The salary base does not depend on the order of the bounds and lies between them. It is the single bound when the other is missing. |
| SalaryApi.Conversion | api2.py:47-50 | Roubles convert at rate 1 without a lookup. Any other currency uses the looked-up rate. |
| SalaryApi.SalaryFor | api2.py:51-60 | A missing or zero rate gives no salary. Otherwise the salary is the integer nearest to base times rate, a tie going to the even one. |
| SalaryApi.GetSalaryRow | api2.py:35-61 | A salary exists exactly when there is a currency, at least one bound, and (unless the currency is RUR) a non-zero rate for the currency and month. It is the rounded base for RUR, and otherwise the integer nearest to base times rate, a tie going to the even one. |
| SalaryApi.RurIgnoresRates | api2.py:47-48 | A rouble salary does not depend on the rate table. |
| SalaryApi.OnlyOwnRateMatters | api2.py:44-50 | Two rate lookups that agree on the vacancy's own currency and month give the same salary. |
| SalaryApi.MakeCsv100 | api2.py:63-71 | The output holds the first hundred vacancies, or all if fewer. Each keeps its name, area and timestamp and carries its converted salary, missing exactly when the conversion fails. |
| SalarySql.Fetch | sql2.py:24-26 | A fetched row is a table row of the requested month. |
| SalarySql.SqlRateAgrees | sql2.py:17-28 | The SQL lookup returns the same rate as the api2.py lookup on the same table, including every failure case. |
| SalarySql.GetSalaryRow | sql2.py:30-55 | A salary exists only with a currency and at least one bound. |
| SalarySql.GetSalaryRowAgrees | sql2.py:30-55 | The sql2.py copy of `get_salary_row` equals the api2.py copy for every vacancy and every rate lookup. |
| SalarySql.SqlSalaryAgrees | sql2.py:17-55 | The two scripts give every vacancy the same salary against the same rate table. |
| SalarySql.AlignedHead | sql2.py:64 | Assigning a column slice back keeps the frame's length. |
| SalarySql.MakeSqlAsWritten | sql2.py:62-65 | The stored table has one row per vacancy. |
| SalarySql.MakeSqlAsWrittenDates | sql2.py:64 | As written, the first seven rows keep their whole timestamp and every later row has no date. |
| SalarySql.MakeSqlAsWrittenCounterexample | sql2.py:64 | With eight vacancies, the eighth stored row has no date and the first holds a full timestamp, not its month. |
| SalarySql.MakeSql | sql2.py:62-65 | As intended, every stored row keeps its name, area and converted salary, and gets the month of its own timestamp. |
| SalarySql.MakeSqlCorrection | sql2.py:64 | The corrected table has the same salaries as the code as written. The dates agree only on the first seven rows, and there only for timestamps of at most seven characters. |
| CurrencyRates.DmyDate | api_cb.py:24 | A ten-character `YYYY-MM-DD` date becomes a ten-character `DD/MM/YYYY` date. |
| CurrencyRates.ChangeDate | api_cb.py:32 | A ten-character day-month-year date becomes a seven-character `YYYY-MM` month. |
| CurrencyRates.DmyThenChange | api_cb.py:24-32 | Rewriting a ten-character date to day/month/year and back to a month gives its year, a dash and its month. |
| CurrencyRates.ChangeDateOfDmyDate | api_cb.py:24-32 | For ten-character dates, the round trip gives back the first seven characters exactly when the fifth is `-`. |
| CurrencyRates.QuoteMonthIsRateDate | api_cb.py:88 | The month stored for a quote is the month that api2.py and sql2.py look rates up by. |
| CurrencyRates.Priced | api_cb.py:16 | Only rows with a currency are considered, and all of them are. |
| CurrencyRates.CurrencyColumn | api_cb.py:39 | The counted column holds the currency of each priced row. |
| CurrencyRates.ColumnCounts | api_cb.py:39 | Each currency occurs in the column as often as rows are quoted in it. |
| CurrencyRates.CurrencyCounts | api_cb.py:34-39 | The counts list each quoted currency once, with its positive row count, by non-increasing count, and no other currency. |
| CurrencyRates.Frequencies | api_cb.py:41-48 | Each currency's frequency is its row count over the number of priced rows, with the same currencies as the counts. |
| CurrencyRates.FrequenciesSumToOne | api_cb.py:46-48 | As soon as some row has a currency, the frequencies add up to one. |
| CurrencyRates.PopularCurrency | api_cb.py:50-59 | Every listed currency is not RUR and occurs in more than 5000 rows. |
| CurrencyRates.PopularCurrencyExactly | api_cb.py:55-59 | A currency is popular exactly when it is not RUR and occurs in more than 5000 rows. |
| CurrencyRates.PopularCurrencyOrder | api_cb.py:56-59 | The popular currencies are listed once each, in the count dictionary's order of non-increasing count. |
| CurrencyRates.Requests | api_cb.py:70-76 | One request per date, each starting with the central bank's daily-quote address. |
| CurrencyRates.RequestsRoundTrip | api_cb.py:75 | Each request carries its own date after the address. Requests are distinct exactly when the dates are. |
| CurrencyRates.QuoteRates | api_cb.py:89-93 | One quote gives a rate to exactly the popular currencies. |
| CurrencyRates.QuoteRatesFail | api_cb.py:92-93 | A quote can be read exactly when no popular currency in it has a zero nominal. |
| CurrencyRates.QuoteRatesValues | api_cb.py:89-93 | A popular currency absent from the quote gets 0. Otherwise it gets the unit rate of its last entry, rounded to six places. |
| CurrencyRates.MakeResDict | api_cb.py:78-96 | After n quotes, the `date` column and every popular-currency column have length n, and there is one column per popular currency. |
| CurrencyRates.MakeResDictFail | api_cb.py:86-95 | The table is built exactly when every quote can be read. |
| CurrencyRates.MakeResDictStep | api_cb.py:86-95 | Each quote appends its month to the `date` column and its rate to each currency column. |
| CurrencyRates.MakeResDictDates | api_cb.py:88 | Row i of the `date` column is the month of quote i. |
| CurrencyRates.MakeResDictRates | api_cb.py:89-95 | Row i of each currency column is that currency's rate in quote i. |
| CurrencyRates.MissingCurrencyIsZero | api_cb.py:89 | A popular currency missing from a quote has 0 in that quote's row. |
| CurrencyRates.RateTable | api_cb.py:83-85 | The built table has a column for exactly the currencies other than RUR that occur in more than 5000 rows. |
| HhRequests.MakeRequests | api3.py:22-31 | There are sixty requests: pages 0 to 19 of each of the three eight-hour windows, window after window. |
| HhRequests.PageUrlInjective | api3.py:23-31 | Two requests are equal only for the same page of the same window. |
| HhRequests.MakeRequestsDistinct | api3.py:22-31 | The sixty requests are pairwise different. |
| HhRequests.ParseVacForCsv | api3.py:42-46 | Name, area name and timestamp are copied unchanged. A null salary gives three empty salary fields, and a present one has its `from`, `to` and `currency` copied. |
| HhRequests.ParseVacRoundTrip | api3.py:43-46 | Reading the flattened row back gives the vacancy exactly when its salary is not an object whose three fields are all null. |
| HhRequests.MakeCsv | api3.py:53-56 | There is one row per returned vacancy over all responses. |
| HhRequests.MakeCsvAt | api3.py:53-56 | Vacancy j of response k is flattened into the row after all rows of the earlier responses. |
| HhRequests.MakeCsvFrom | api3.py:53-56 | Every row is the flattening of some returned vacancy, at its response-order position. |
| DateFormats.SliceTest | date_test.py:28-32 | On inputs of at least ten characters, the result is ten characters long with dots at positions 2 and 5. |
| DateFormats.SplitTest | date_test.py:35-40 | `split_test` fails exactly when the text before the first `T` holds fewer than two `-`. |
| DateFormats.SplitIsoDate | date_test.py:36 | On an ISO timestamp, the text before `T` is the date, which splits into year, month and day. |
| DateFormats.SplitMatchesSlice | date_test.py:28-40 | On `YYYY-MM-DD` timestamps, `split_test` and `slice_test` give the same result. |
| DateFormats.SplitTestFailsOnYear | date_test.py:28-40 | A bare year makes `split_test` fail, while `slice_test` still returns a string. |
| DateFormats.ExtractDates | date_test.py:8 | The extraction skips every row with a `published_at` cell and takes field 5 of each other row, in order. It fails exactly when such a row is too short. |
| Numbers.RoundHalfEven | 342.py:29 | Python's `round` lands within one half of its argument, and a tie goes to the even integer. |
| Numbers.RoundTo4 | main.py:49 | `round(x, 4)` is a multiple of 0.0001 within half a unit of `x`; at a tie it is the even multiple. |
| Numbers.RoundTo6 | api_cb.py:92-93 | `round(x, 6)` is a multiple of 0.000001 within half a unit of `x`; at a tie it is the even multiple. |
| Numbers.Mean | con_futures.py:32 | The pandas mean is NaN exactly when no value is present. |
| Numbers.RoundMean | 342.py:29-30 | `round(mean)` fails exactly when no salary is present. |
| Text.Lower | 342.py:63 | Lower-casing keeps the length and lower-cases every character. |
| Text.LowerIdempotent | 342.py:63 | Lower-casing twice is the same as lower-casing once. |
| Text.SplitLength | date_test.py:36 | Splitting on a character yields one more piece than there are separators. |
| Seqs.Unique | thread.py:10 | `unique()` lists every value once and nothing else. |
| Seqs.UniqueFirstAppearance | thread.py:10 | `unique()` lists values in order of their first appearance. |
| Sorting.SortDesc | main.py:62-63 | `sorted(..., key=lambda x: -x[1])` gives a non-increasing permutation of its input. |
| Sorting.SortedUnique | 342.py:39 | The `groupby` groups are the distinct values in strictly ascending order. |
| Dicts.Put | con_futures.py:60-63 | Storing under a key keeps a dictionary's key list free of repeats. |

## Left out

- **I/O and rendering.**
  - Reading and writing files: `csv.reader`, `read_csv`, `to_csv`, `to_sql`
    and the SQLite connection. The CSV file is a sequence of rows of
    strings.
  - Excel and chart output in `main.py`, and the jinja2/pdfkit PDF output in
    `342.py` and `343.py`.
  - `print` and `cProfile`.
- **The network.** The `grequests` calls and the `xmltodict` parsing are
  left out. A quote response is already a list of `Valute` records. An
  hh.ru response is already a list of vacancies.
- **Concurrency.** The `ProcessPoolExecutor` of `con_futures.py` is a
  sequential loop over the chunks. The threads of `thread.py` are a list of
  partitions; the threads are never joined, which has no sequential
  meaning.
- **Float conversions.**
  - `float()` of a salary cell and `int()` of the year in `main.py` are the
    parameters `toFloat` and `toInt`.
  - Decimal-comma parsing of quote values is left out; a `Valute` carries
    its value as a number.
- **Binary floating point.** All arithmetic is exact. `round(x, 4)` of a
  binary float can land on the other side of the 0.01 share threshold at an
  exact tie, and the model does not reproduce that.
- **Rate-table NaN cells.** A pandas `NaN` cell in the rate table is an
  absent cell (`None`). `not conv` then rejects it like a missing rate,
  although Python treats `NaN` as true.
- **`get_dates`.** The `date_range` month arithmetic is not modelled;
  `Requests` takes the list of dates as given.
- **Edge cases of `make_res_dict`.**
  - A popular currency literally named `date`, which would collide with the
    date column.
  - The single-entry case where `xmltodict` returns a dict rather than a
    list.
- **`parse_vac_for_csv` with an empty salary object.** An empty salary
  object is falsy in Python and is treated like `null`; the model only has
  present or absent salaries.
- **`str.contains` is a regular-expression search.** It is modelled as a
  plain substring test. That agrees for professions without regex
  metacharacters, and always for the four-digit years that `thread.py`
  searches for.
- **pandas version.** The model assumes pandas before 2.0, where
  `groupby(['col'])` yields scalar group keys. From pandas 2.0 these keys
  are one-element tuples, with two consequences:
  - the year keys of `342.py` and of `343.py`'s `get_data_for_one` would
    be tuples;
  - `city in city_part` in `343.py` would never hold, leaving
    `salary_by_city` and `dict_sal_city` empty.
- **Other script functions.**
  - `datetime_test` and `datefinder_test` in `date_test.py`: foreign
    libraries.
  - The `profile` decorator: timing only.
  - `sql1.py`: database loading only.
- **Exception kinds.** `main.py` raises on the first row that cannot be
  read or priced; every such exception is the single failure `None`.
- **Text.Lower** changes only Latin and Cyrillic capitals, not the whole of
  Unicode's case mapping.
- **Tally.ValueCounts** breaks ties in first-appearance order. pandas does
  not promise an order among equal counts.
- **SalarySql.GetSalaryRow:** its own contract states only that a salary
  needs a currency and a bound. The full decision rule comes from
  `SalaryApi.GetSalaryRow` through `SalarySql.GetSalaryRowAgrees`.
- **Accumulation contracts.** `MainStats.YearCount`, `YearSum`,
  `YearCountFilt`, `YearSumFilt`, `CityCount` and `CitySum` state only their
  keys in their own contracts. Their values are stated by the `…At`
  lemmas.

## Findings

| source | as written | input that shows it | evidently intended | confidence | as-written member | corrected member |
|---|---|---|---|---|---|---|
| sql2.py:64 | `data['published_at'] = data['published_at'][:7]` slices the first seven rows of the column. Index alignment then leaves every later row without a date and keeps the full timestamp in the first seven. | Eight vacancies all published at `2022-07-05T10:00:00+0300`: row 8 is stored with no date and row 1 with the whole timestamp. | `.str[:7]`: every row stores the `YYYY-MM` month of its own timestamp. | not executed | SalarySql.MakeSqlAsWritten, SalarySql.MakeSqlAsWrittenCounterexample | SalarySql.MakeSql, SalarySql.MakeSqlCorrection |
