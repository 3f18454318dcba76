/** Collecting a Letterboxd user's diary: one record per diary-table row,
    page after page. Fetching a page over HTTP and parsing its HTML are not
    modelled; they come in as the `fetch` parameter, which maps a URL to
    the page's diary rows, or to None when the request or the parse fails. */
module Diary {
  import opened Wrappers
  import Text

  /** Sentinel for a film name, release year or watch date that is missing. */
  const Unknown: string := "Unknown"
  /** Sentinel for a missing rating. */
  const NoRating: string := "No rating"

  /** One diary entry; all four fields are always present. */
  datatype Record = Record(filmName: string, releaseDate: string, rating: string, watchDate: string)

  /** One `diary-entry-row` as the HTML parser presents it, each text already
      stripped. `film` is None when the film-details cell is missing, and
      Some(None) when the cell is there but holds no link; likewise `rating`
      for the rating cell and the rating span inside it. */
  datatype Row = Row(
    film: Option<Option<string>>,
    released: Option<string>,
    rating: Option<Option<string>>,
    day: Option<string>)

  /** The record for one row, or None when the row is skipped: a film cell
      without a link makes the extraction fail, and the row is dropped.
      Every other missing part gets its sentinel. */
  function ExtractRow(row: Row): (r: Option<Record>)
    ensures r.None? <==> row.film == Some(None)
    ensures r.Some? ==> r.value.filmName == Flatten(row.film).GetOr(Unknown)
    ensures r.Some? ==> r.value.releaseDate == row.released.GetOr(Unknown)
    ensures r.Some? ==> r.value.rating == Flatten(row.rating).GetOr(NoRating)
    ensures r.Some? ==> r.value.watchDate == row.day.GetOr(Unknown)
  {
    match row.film
    case Some(None) => None
    case Some(Some(link)) => Some(FillFields(link, row))
    case None => Some(FillFields(Unknown, row))
  }

  /** The record of a row whose film name is known: the release, rating and
      day fields fall back to their sentinels one by one. */
  function FillFields(filmName: string, row: Row): Record {
    var releaseDate := match row.released case Some(t) => t case None => Unknown;
    var rating := match row.rating case Some(Some(t)) => t case _ => NoRating;
    var watchDate := match row.day case Some(t) => t case None => Unknown;
    Record(filmName, releaseDate, rating, watchDate)
  }

  /** The first diary page of `user`. */
  function DiaryUrl(user: string): string {
    "https://letterboxd.com/" + user + "/films/diary/"
  }

  /** The URL of diary page `i`: page 1 is the diary itself, page i > 1 is
      `page/{i}/` below it. */
  function PageUrl(user: string, i: nat): (url: string)
  {
    if i == 1 then DiaryUrl(user)
    else DiaryUrl(user) + "page/" + Text.NatToString(i) + "/"
  }

  /** Only page 1 is fetched from the bare diary URL; every other page's URL
      extends it. */
  lemma PageUrlExtendsDiaryUrl(user: string, i: nat)
    ensures PageUrl(user, i) == DiaryUrl(user) <==> i == 1
    ensures DiaryUrl(user) <= PageUrl(user, i)
  {
    if i != 1 {
      assert |PageUrl(user, i)| > |DiaryUrl(user)|;
    }
  }

  /** Different page numbers give different URLs, so no page is fetched twice
      and a fetch result belongs to exactly one page. */
  lemma PageUrlInjective(user: string, i: nat, j: nat)
    ensures PageUrl(user, i) == PageUrl(user, j) ==> i == j
  {
    if PageUrl(user, i) == PageUrl(user, j) && i != 1 && j != 1 {
      var base := DiaryUrl(user) + "page/";
      var u := PageUrl(user, i);
      assert u == base + Text.NatToString(i) + "/";
      assert u[|base|..|u| - 1] == Text.NatToString(i);
      assert PageUrl(user, j)[|base|..|u| - 1] == Text.NatToString(j);
      Text.NatToStringInjective(i, j);
    }
  }

  /** Records of one page's rows, in row order, skipped rows left out. */
  function PageRecords(rows: seq<Row>): (recs: seq<Record>)
    ensures |recs| <= |rows|
    decreases |rows|
  {
    if rows == [] then []
    else
      var rest := PageRecords(rows[..|rows| - 1]);
      match ExtractRow(rows[|rows| - 1])
      case Some(rec) => rest + [rec]
      case None => rest
  }

  /** Records contributed by one fetch: none when the page failed. */
  function PageData(response: Option<seq<Row>>): seq<Record> {
    match response
    case None => []
    case Some(rows) => PageRecords(rows)
  }

  /** The records one fetcher yields for page `i` of `user`'s diary. */
  function PageOf(user: string, fetch: string -> Option<seq<Row>>, i: nat): seq<Record> {
    PageData(fetch(PageUrl(user, i)))
  }

  /** All pages of `user`'s diary, as a function of the page number. */
  function Pages(user: string, fetch: string -> Option<seq<Row>>): nat -> seq<Record> {
    (i: nat) => PageOf(user, fetch, i)
  }

  /** `f(lo) + ... + f(hi)`, empty when `hi < lo`. */
  function ConcatRange<T>(lo: nat, hi: int, f: nat -> seq<T>): seq<T>
    decreases hi - lo
  {
    if hi < lo then [] else ConcatRange(lo, hi - 1, f) + f(hi)
  }

  /** The diary of `user` over pages 1 to `pages` (none when `pages` < 1). */
  function UserDiary(user: string, pages: int, fetch: string -> Option<seq<Row>>): seq<Record> {
    ConcatRange(1, pages, Pages(user, fetch))
  }

  /** Fetches pages 1 to `pages` in order and appends every extracted record,
      skipping failed pages and rows whose film cell has no link. */
  method GetUserDiary(user: string, pages: int, fetch: string -> Option<seq<Row>>)
    returns (data: seq<Record>)
    ensures data == UserDiary(user, pages, fetch)
  {
    data := [];
    var i := 1;
    while i <= pages
      invariant 1 <= i && (i <= pages + 1 || i == 1)
      invariant data == ConcatRange(1, i - 1, Pages(user, fetch))
    {
      ghost var before := data;
      var url := PageUrl(user, i);
      var response := fetch(url);
      if response.Some? {
        var entries := response.value;
        var k := 0;
        while k < |entries|
          invariant 0 <= k <= |entries|
          invariant data == before + PageRecords(entries[..k])
        {
          assert entries[..k + 1][..k] == entries[..k];
          var rec := ExtractRow(entries[k]);
          if rec.Some? {
            data := data + [rec.value];
          }
          k := k + 1;
        }
        assert entries[..k] == entries;
      }
      assert data == before + Pages(user, fetch)(i);
      i := i + 1;
    }
  }

  /** Rows are handled one after another: the records of two row lists
      joined are those of the first followed by those of the second. */
  lemma {:induction false} PageRecordsAppend(a: seq<Row>, b: seq<Row>)
    ensures PageRecords(a + b) == PageRecords(a) + PageRecords(b)
    decreases |b|
  {
    if b == [] {
      assert a + b == a;
    } else {
      var n := |b| - 1;
      assert (a + b)[..|a + b| - 1] == a + b[..n];
      PageRecordsAppend(a, b[..n]);
    }
  }

  /** Positions of the rows that are skipped (a film cell without a link). */
  ghost function SkippedRows(rows: seq<Row>): set<nat> {
    set k: nat | k < |rows| && rows[k].film == Some(None)
  }

  /** Row-level isolation: a page yields one record per row except the
      skipped ones, and nothing else. */
  lemma {:induction false} PageRecordsCount(rows: seq<Row>)
    ensures |PageRecords(rows)| == |rows| - |SkippedRows(rows)|
    decreases |rows|
  {
    if rows != [] {
      var n := |rows| - 1;
      var p := rows[..n];
      PageRecordsCount(p);
      if rows[n].film == Some(None) {
        assert SkippedRows(rows) == SkippedRows(p) + {n};
      } else {
        assert SkippedRows(rows) == SkippedRows(p);
      }
    }
  }

  /** A page's records are exactly the records extracted from its rows. */
  lemma {:induction false} PageRecordsMembers(rows: seq<Row>, rec: Record)
    ensures rec in PageRecords(rows) <==> exists k :: 0 <= k < |rows| && ExtractRow(rows[k]) == Some(rec)
    decreases |rows|
  {
    if rows != [] {
      var n := |rows| - 1;
      var p := rows[..n];
      PageRecordsMembers(p, rec);
      if rec in PageRecords(rows) {
        if rec in PageRecords(p) {
          var k :| 0 <= k < |p| && ExtractRow(p[k]) == Some(rec);
          assert rows[k] == p[k];
        } else {
          assert ExtractRow(rows[n]) == Some(rec);
        }
      }
      if exists k :: 0 <= k < |rows| && ExtractRow(rows[k]) == Some(rec) {
        var k :| 0 <= k < |rows| && ExtractRow(rows[k]) == Some(rec);
        if k < n {
          assert p[k] == rows[k];
        }
      }
    }
  }

  /** A range of pages can be taken in two consecutive parts. */
  lemma {:induction false} ConcatRangeSplit<T>(lo: nat, mid: nat, hi: int, f: nat -> seq<T>)
    requires lo <= mid <= hi + 1
    ensures ConcatRange(lo, hi, f) == ConcatRange(lo, mid - 1, f) + ConcatRange(mid, hi, f)
    decreases hi - mid
  {
    if hi >= mid {
      ConcatRangeSplit(lo, mid, hi - 1, f);
      var a, b := ConcatRange(lo, mid - 1, f), ConcatRange(mid, hi - 1, f);
      assert ConcatRange(lo, hi, f) == (a + b) + f(hi);
      assert (a + b) + f(hi) == a + (b + f(hi));
    } else {
      assert ConcatRange(mid, hi, f) == [];
    }
  }

  /** Page functions that agree on `lo` to `hi` give that range the same records. */
  lemma {:induction false} ConcatRangeAgree<T>(lo: nat, hi: int, f: nat -> seq<T>, g: nat -> seq<T>)
    requires forall i: nat :: lo <= i <= hi ==> f(i) == g(i)
    ensures ConcatRange(lo, hi, f) == ConcatRange(lo, hi, g)
    decreases hi - lo
  {
    if hi >= lo {
      ConcatRangeAgree(lo, hi - 1, f, g);
    }
  }

  /** A range is the part before `p`, page `p`, and the part after it. */
  lemma ConcatRangeAround<T>(lo: nat, p: nat, hi: int, f: nat -> seq<T>)
    requires lo <= p <= hi
    ensures ConcatRange(lo, hi, f) == ConcatRange(lo, p - 1, f) + f(p) + ConcatRange(p + 1, hi, f)
  {
    ConcatRangeSplit(lo, p, hi, f);
    ConcatRangeSplit(p, p + 1, hi, f);
    assert ConcatRange(p, p, f) == f(p);
  }

  /** Replacing page `p` by nothing, and no other page, removes exactly
      page `p`'s part of a range that holds it. */
  lemma ConcatRangeWithout<T>(lo: nat, p: nat, hi: int, f: nat -> seq<T>, g: nat -> seq<T>)
    requires lo <= p <= hi
    requires g(p) == []
    requires forall i: nat :: i != p ==> g(i) == f(i)
    ensures ConcatRange(lo, hi, g) == ConcatRange(lo, p - 1, f) + ConcatRange(p + 1, hi, f)
  {
    ConcatRangeAgree(lo, p - 1, f, g);
    ConcatRangeAgree(p + 1, hi, f, g);
    ConcatRangeAround(lo, p, hi, g);
  }

  /** Page-level isolation: when the fetch of page `p` fails and every other
      page is fetched as before, the diary loses exactly page `p`'s records;
      the pages before and after it are kept, in order. */
  lemma FailedPageIsIsolated(user: string, pages: int, p: nat, fetch: string -> Option<seq<Row>>, fetch': string -> Option<seq<Row>>)
    requires 1 <= p <= pages
    requires fetch'(PageUrl(user, p)) == None
    requires forall i: nat :: i != p ==> fetch'(PageUrl(user, i)) == fetch(PageUrl(user, i))
    ensures UserDiary(user, pages, fetch) ==
      ConcatRange(1, p - 1, Pages(user, fetch)) + PageOf(user, fetch, p) + ConcatRange(p + 1, pages, Pages(user, fetch))
    ensures UserDiary(user, pages, fetch') ==
      ConcatRange(1, p - 1, Pages(user, fetch)) + ConcatRange(p + 1, pages, Pages(user, fetch))
  {
    var f, g := Pages(user, fetch), Pages(user, fetch');
    assert g(p) == [];
    assert forall i: nat :: i != p ==> g(i) == f(i);
    ConcatRangeAround(1, p, pages, f);
    ConcatRangeWithout(1, p, pages, f, g);
  }

  /** The same isolation when the fetcher is changed at page `p`'s URL alone:
      since page URLs are distinct, no other page is affected. */
  lemma FailedUrlIsIsolated(user: string, pages: int, p: nat, fetch: string -> Option<seq<Row>>, fetch': string -> Option<seq<Row>>)
    requires 1 <= p <= pages
    requires fetch'(PageUrl(user, p)) == None
    requires forall url :: url != PageUrl(user, p) ==> fetch'(url) == fetch(url)
    ensures UserDiary(user, pages, fetch') ==
      ConcatRange(1, p - 1, Pages(user, fetch)) + ConcatRange(p + 1, pages, Pages(user, fetch))
  {
    forall i: nat | i != p
      ensures fetch'(PageUrl(user, i)) == fetch(PageUrl(user, i))
    {
      PageUrlInjective(user, i, p);
    }
    FailedPageIsIsolated(user, pages, p, fetch, fetch');
  }

  /** A fetcher that fails at exactly page p's URL and answers as `fetch`
      elsewhere drops page p's records and keeps the others in order. */
  lemma FailingOneUrl(user: string, pages: int, p: nat, fetch: string -> Option<seq<Row>>)
    requires 1 <= p <= pages
    ensures UserDiary(user, pages, url => if url == PageUrl(user, p) then None else fetch(url)) ==
      ConcatRange(1, p - 1, Pages(user, fetch)) + ConcatRange(p + 1, pages, Pages(user, fetch))
  {
    var fetch' := url => if url == PageUrl(user, p) then None else fetch(url);
    FailedUrlIsIsolated(user, pages, p, fetch, fetch');
  }
}
