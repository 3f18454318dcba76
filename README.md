# Letterboxd diary: per-year top films

This project models the core of `hw_23.py`, a script that collects a Letterboxd user's film
diary and ranks the films they watched from a chosen release year. It covers three parts.

- **Ranking** (`get_top_films_by_year`). Each diary record with a four-digit release year gets a
  numeric rating. The rules, in order: `"No rating"` is 0; a text starting with `★` counts its
  characters; a text starting with `½` is 0.5; anything else is parsed as a decimal number, and
  is 0 when that fails. Records are grouped by year into a map. The requested year's list is
  sorted stably by rating, highest first, and cut to ten entries.
- **Row extraction** (`get_user_diary`, the per-row part). Each table cell is given as an
  `Option` of its already-stripped text. A missing film, release or day cell gives `"Unknown"`. A
  missing rating cell or rating span gives `"No rating"`. A film cell without a link makes the
  extraction fail, and the row is skipped.
- **Page walk** (`get_user_diary`, the outer loop). Pages 1 to `pages` are fetched in order. Page
  1 is `https://letterboxd.com/{user}/films/diary/`, and page i > 1 adds `page/{i}/`. A page whose
  fetch fails contributes nothing, and the walk carries on.

Modules:

- `Wrappers`: the `Option` type.
- `Text`: ASCII digits, decimal reading and writing of naturals.
- `Diary`: records, rows, row extraction, page URLs, the collecting method.
- `StableSort`: a generic stable descending insertion sort. It has a functional definition, its
  properties, and an in-place array method proved equal to it.
- `Ranking`: rating conversion, year filter, the grouping method and the top-films method. The
  ranking's properties are stated on two functions. `GroupByYear` is proved to hold `YearGroup`
  for every year, and `GetTopFilmsByYear` is proved to return `TopFilms`.

Two operations of `hw_23.py` are library calls, so they are parameters:

- `parse: string -> Option<real>` stands for Python's `float()`.
- `fetch: string -> Option<seq<Row>>` stands for the HTTP request plus the HTML parse of a page.
  None means the request or the parse raised.

## Model

| member | source | states |
|---|---|---|
| Ranking.GetTopFilmsByYear | hw_23.py:67-100 | Grouping into a map, sorting the requested year's list in place on an array and keeping ten gives exactly `TopFilms`. |
| Ranking.GroupByYear | hw_23.py:68-95 | The map built record by record holds, for every year, exactly that year's entries in input order. Only years with at least one record get a key. |
| Ranking.YearGroupStep | hw_23.py:89-93 | The step of the grouping loop: the definition of `YearGroup` unfolded once at `data[..i + 1]`, for every year at once. |
| Ranking.RatingRules | hw_23.py:77-87 | The four conversion rules in order. `"No rating"` is 0. A leading star gives the text's length. A leading half star gives 0.5. Otherwise the parse result is used, or 0 when the parse fails, so a record is never dropped for its rating. |
| Ranking.RatingOfRatingText | hw_23.py:78-83 | For a displayed rating of h half stars (h >= 1), a lone half star is 0.5. Otherwise the value is the number of characters, ceil(h/2), which is exact for whole-star ratings. |
| Ranking.FourAndAHalfStarsRateFive | hw_23.py:80-81 | `"★★★★½"` converts to 5, not 4.5, because the star rule is tried first. |
| Ranking.RatingValue | hw_23.py:77-87 | Defines the rating conversion. Its rules are stated by `RatingRules`, and its values on every displayed star rating by `RatingOfRatingText`. |
| Ranking.IsYearText | hw_23.py:73 | Defines the year test `isdigit() and len == 4`, restricted to ASCII digits. `YearOf` and `InvalidYearIgnored` state its effect on grouping. |
| Ranking.Rank | hw_23.py:89-93 | Defines the entry kept for a record: film name and watch date carried over, rating converted by `RatingValue`. `TopFilmsFromYear` and `YearGroupMembers` state that entries are built this way. |
| Ranking.YearOf | hw_23.py:72-74 | A record has a year exactly when its release date is four ASCII digits. That year lies in 0..9999. |
| Ranking.YearOfCanonical | hw_23.py:72-74 | A record dated with the decimal text of a year from 1000 to 9999 is grouped under exactly that year. |
| Ranking.LeadingZeroYear | hw_23.py:73-74 | The date "0999" passes the four-digit test and is read as the year 999. |
| Ranking.YearGroup | hw_23.py:68-93 | Defines a year's group: the converted entries of that year's records, in input order. Its size is stated by `YearGroupLength`, its members by `YearGroupMembers`, and how it splits by `YearGroupAppend`. |
| Ranking.TopFilms | hw_23.py:97-100 | Defines the ranking: the first ten of the stable descending sort of the year's group. Its properties are stated by the `TopFilms...` lemmas below. |
| Ranking.Take | hw_23.py:100 | The slice `[:10]`: a prefix of the list, with length min(10, length). |
| Ranking.InvalidYearIgnored | hw_23.py:72-74 | Inserting a record whose release date is not four digits anywhere in the input changes no year's ranking. |
| Ranking.YearGroupLength | hw_23.py:70-93 | A year's group has one entry per record of that year. |
| Ranking.YearGroupMembers | hw_23.py:89-93 | An entry is in a year's group if and only if some record of that year converts to it. |
| Ranking.YearGroupAppend | hw_23.py:70-93 | The group of two record lists joined is the first list's group followed by the second's. |
| Ranking.TopFilmsLength | hw_23.py:97-100 | The ranking has min(10, n) entries, n being the number of records of that year. A year without records gives the empty ranking. |
| Ranking.TopFilmsSorted | hw_23.py:98 | Ratings never increase along the ranking. |
| Ranking.TopFilmsStable | hw_23.py:98-100 | For every rating value, the ranking's entries with that rating are a prefix of the year's entries with that rating, in input order. |
| Ranking.TopFilmsFromYear | hw_23.py:89-100 | The ranking is a sub-multiset of the year's entries. Each entry carries the film name and watch date of a record of that year unchanged, with that record's converted rating. |
| Ranking.TopFilmsAreHighest | hw_23.py:98-100 | Every entry of the year left out of the ranking is rated no higher than any entry in it. |
| Ranking.TopFilmsOfAnyStableSort | hw_23.py:98-100 | The ranking equals the first ten of any sequence that is sorted descending and keeps each rating's entries in input order. |
| Ranking.RankingExample | hw_23.py:67-100 | Two 1999 films rated five and three stars plus a 2000 film: the 1999 ranking is the five-star film, then the three-star one. |
| StableSort.Insert | hw_23.py:98 | Defines one stable insertion: the new element goes after the last element whose key is at least its own. `InsertAt` names its position, and `InsertPermutes`, `InsertSorted` and `InsertStable` state its properties. |
| StableSort.SortDesc | hw_23.py:98 | Defines the stable descending sort as repeated insertion. Its properties are stated by `SortDescPermutes`, `SortDescSorted`, `SortDescStable` and `SortDescUnique`. |
| StableSort.SortInPlace | hw_23.py:98 | Sorting an array in place by insertion leaves exactly the stable descending sort of its old contents. |
| StableSort.InsertInPlace | hw_23.py:98 | One insertion step shifts right the end of the sorted prefix whose keys are smaller than the element's, then places the element after the last entry with a key >= its own. The rest of the array is unchanged. |
| StableSort.SortDescPermutes | hw_23.py:98 | Sorting keeps the multiset of elements and the length. |
| StableSort.SortDescSorted | hw_23.py:98 | The sort's result is non-increasing in the key. |
| StableSort.SortDescStable | hw_23.py:98 | For every key value, the elements with that key keep their relative order. |
| StableSort.SortDescUnique | hw_23.py:98 | Any sequence that is sorted descending and keeps each key's elements in input order is the sort's result. |
| StableSort.SortedPrefixDominates | hw_23.py:98-100 | In a descending sequence, an element outside a prefix has a key no larger than any key in the prefix. |
| StableSort.WithKeyMembers | hw_23.py:98 | The elements with a given key are exactly the input's elements with that key. |
| Diary.ExtractRow | hw_23.py:28-55 | A row is skipped exactly when its film cell has no link. Otherwise the film name, release date and day fall back to `"Unknown"`, and the rating to `"No rating"` when its cell or span is missing. |
| Diary.FillFields | hw_23.py:31-45 | Defines the record of a row whose film name is known, with each missing field set to its sentinel. Its contract is stated through `ExtractRow`. |
| Diary.PageRecords | hw_23.py:25-55 | Defines one page's records in row order, skipped rows left out. It has at most as many records as rows. `PageRecordsCount` and `PageRecordsMembers` state exactly which. |
| Diary.UserDiary | hw_23.py:12-62 | Defines the diary: the records of pages 1 to `pages` in order, a failed page giving none. `FailedPageIsIsolated` and `FailedUrlIsIsolated` state its properties. |
| Diary.PageUrl | hw_23.py:14-17 | Defines the page URL. `PageUrlExtendsDiaryUrl` and `PageUrlInjective` state its properties. |
| Diary.PageData | hw_23.py:19-62 | Defines what one fetch contributes: a failed page (the `except ... continue` at hw_23.py:60-62) gives no records, otherwise its rows' records. `FailedPageIsIsolated` states its effect on the diary. |
| Diary.DiaryUrl | hw_23.py:15 | Defines the page-1 URL. `PageUrlExtendsDiaryUrl` states that only page 1 uses it and every page URL extends it. |
| Diary.GetUserDiary | hw_23.py:9-64 | Fetching pages 1..pages in order and appending each extracted record gives exactly `UserDiary`: page by page concatenation, a failed page contributing nothing. |
| Diary.PageRecordsCount | hw_23.py:25-55 | A page yields one record per row, less the rows skipped for a film cell without a link. |
| Diary.PageRecordsMembers | hw_23.py:25-55 | A record comes from a page if and only if one of its rows extracts to it. |
| Diary.PageRecordsAppend | hw_23.py:25-55 | Rows are handled one after another in order: the records of two row lists joined are the first list's records followed by the second's. |
| Diary.FailingOneUrl | hw_23.py:12-62 | A fetcher that fails exactly at page p's URL and otherwise answers as `fetch` does yields the diary without page p's records. |
| Diary.FailedPageIsIsolated | hw_23.py:12-62 | A page whose fetch fails removes exactly that page's records. The pages before and after it contribute as before. |
| Diary.FailedUrlIsIsolated | hw_23.py:12-62 | The same at the level of URLs: failing one page's URL affects only that page, since page URLs are distinct. |
| Diary.PageUrlExtendsDiaryUrl | hw_23.py:14-17 | Only page 1 uses the bare diary URL, and every page URL extends it. |
| Diary.PageUrlInjective | hw_23.py:14-17 | Different page numbers give different URLs. |
| Text.DigitsValue | hw_23.py:74 | Defines `int(film_year)` on ASCII digit texts. `DigitsValueOfNatToString`, `DigitsValueBound` and `LeadingZero` state its properties. |
| Text.LeadingZero | hw_23.py:74 | A leading zero changes no value: any digit text with a `0` in front reads as the same number, so "0042" is 42 and "0000" is 0. |
| Text.NatToString | hw_23.py:17 | Page numbers are written as non-empty ASCII digit strings without a leading zero. |
| Text.DigitsValueOfNatToString | hw_23.py:17 | Reading back a written page number gives that number. |
| Text.NatToStringInjective | hw_23.py:17 | Different numbers are written differently. |
| Text.DigitsValueBound | hw_23.py:73-74 | An n-digit decimal text denotes a value below 10^n, so a four-digit year is below 10000. |

## Left out

- HTTP and HTML (hw_23.py:19-23 and the `find`/`.text.strip()` calls): these are library calls. A
  page's rows come from the `fetch` parameter, and each cell is given as already-stripped text.
- Progress and error printing, and `time.sleep(2)` (hw_23.py:54, 57, 58, 61): console output and
  timing. An error does the same as in the source: the row or page is skipped.
- `save_to_json` and `main` (hw_23.py:103-151): file and JSON output, interactive input,
  timestamps.
- `float()` (hw_23.py:85): modelled as the uninterpreted `parse` parameter returning
  `Option<real>`. The model has no `inf` or `nan`, and it does not fix which texts parse.
- RatingValue: Python's `len(rating_str)` and `0` are integers and `0.5` and `float()` are floats.
  The model makes all of them `real`. This changes no comparison the sort makes.
- YearOf: Python's `str.isdigit` also accepts non-ASCII digits, so such a date passes the test
  on hw_23.py:73. What happens next depends on the digits. `int()` reads decimal digits of any
  script (hw_23.py:74): a fullwidth "１９９９" is ranked under 1999 by the source. Other digit
  characters, such as "²", make `int()` raise, and the record is dropped on hw_23.py:94-95. The
  model accepts only ASCII `0`-`9`, so it ignores both kinds of record.
- GetUserDiary: the default `pages=5` of `get_user_diary` (hw_23.py:9) is not modelled, and
  `pages` is always passed. The only caller, `main`, always passes it (hw_23.py:114).
- The outer `try`/`except` of the ranking (hw_23.py:71, 94-95) also guards against records that lack a
  key or are not strings. A `Record` always has its four string fields, so that path cannot
  occur here.
- The ranking sorts the year's list held in the map (hw_23.py:98). The model sorts a copy taken
  into an array, so it does not capture that the map's list is changed too. The map is local
  and is discarded afterwards.
- The half-star case is kept as the source writes it: `"★★★★½"` is 5, as proved by
  `FourAndAHalfStarsRateFive`.
