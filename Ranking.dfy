/** The per-year top-10 of a collected diary: each record whose release year
    is four ASCII digits gets a numeric rating, records are grouped by year,
    and the requested year's group is sorted stably by rating, highest
    first, and cut to its first ten entries. */
module Ranking {
  import opened Wrappers
  import Text
  import opened Diary
  import StableSort

  const Star: char := '★'
  const HalfStar: char := '½'
  /** How many entries a ranking keeps at most. */
  const TopCount: nat := 10

  /** A record as it appears in a ranking: the rating is now a number. */
  datatype RankedEntry = RankedEntry(filmName: string, rating: real, watchDate: string)

  /** The numeric value of a rating text, by the first rule that applies:
      the "No rating" sentinel is 0; a text starting with a star counts its
      characters; a text starting with a half star is 0.5; anything else is
      read as a decimal number by `parse`, and is 0 when that fails. */
  function RatingValue(text: string, parse: string -> Option<real>): real {
    if text == NoRating then 0.0
    else if |text| > 0 && text[0] == Star then |text| as real
    else if |text| > 0 && text[0] == HalfStar then 0.5
    else parse(text).GetOr(0.0)
  }

  /** Exactly four ASCII digits. */
  predicate IsYearText(s: string) {
    |s| == 4 && Text.AllDigits(s)
  }

  /** The release year a record is grouped under, if it has one. */
  function YearOf(r: Record): (y: Option<int>)
    ensures y.Some? <==> IsYearText(r.releaseDate)
    ensures y.Some? ==> 0 <= y.value < 10000
  {
    if IsYearText(r.releaseDate) then
      Text.DigitsValueBound(r.releaseDate);
      Some(Text.DigitsValue(r.releaseDate))
    else None
  }

  /** A record dated with the decimal text of a four-digit year is grouped
      under that year, as `int(film_year)` reads it. */
  lemma YearOfCanonical(r: Record, n: nat)
    requires 1000 <= n <= 9999 && r.releaseDate == Text.NatToString(n)
    ensures YearOf(r) == Some(n)
  {
    assert Text.Pow10(3) == 1000 && Text.Pow10(4) == 10000;
    Text.NatToStringLength(n, 3);
    Text.DigitsValueOfNatToString(n);
  }

  /** Leading zeros are read as `int` reads them: "0999" is the year 999. */
  lemma LeadingZeroYear(r: Record)
    requires r.releaseDate == "0999"
    ensures YearOf(r) == Some(999)
  {
    assert "0999"[..3] == "099" && "099"[..2] == "09" && "09"[..1] == "0" && "0"[..0] == "";
  }

  /** The ranking entry of a record: name and watch date carried over, rating
      converted. */
  function Rank(r: Record, parse: string -> Option<real>): RankedEntry {
    RankedEntry(r.filmName, RatingValue(r.rating, parse), r.watchDate)
  }

  /** The entries of the records released in `year`, in input order. */
  function YearGroup(data: seq<Record>, year: int, parse: string -> Option<real>): seq<RankedEntry>
    decreases |data|
  {
    if data == [] then []
    else
      var r := data[|data| - 1];
      YearGroup(data[..|data| - 1], year, parse) + (if YearOf(r) == Some(year) then [Rank(r, parse)] else [])
  }

  function ByRating(e: RankedEntry): real {
    e.rating
  }

  /** The first `n` elements, or all of them when there are fewer. */
  function Take<T>(s: seq<T>, n: nat): (r: seq<T>)
    ensures r <= s
    ensures |r| == if |s| <= n then |s| else n
  {
    if |s| <= n then s else s[..n]
  }

  lemma TakeIsSubMultiset<T>(s: seq<T>, n: nat)
    ensures multiset(Take(s, n)) <= multiset(s)
  {
    if n < |s| {
      assert s == s[..n] + s[n..];
    }
  }

  /** The ranking of `year`: the first entries of the stable descending sort
      of that year's group. */
  function TopFilms(data: seq<Record>, year: int, parse: string -> Option<real>): seq<RankedEntry> {
    Take(StableSort.SortDesc(YearGroup(data, year, parse), ByRating), TopCount)
  }

  /** One more record extends its own year's group and no other. */
  lemma YearGroupStep(data: seq<Record>, i: nat, parse: string -> Option<real>)
    requires i < |data|
    ensures forall y :: (YearGroup(data[..i + 1], y, parse) ==
      YearGroup(data[..i], y, parse) + (if YearOf(data[i]) == Some(y) then [Rank(data[i], parse)] else []))
  {
    assert data[..i + 1][..i] == data[..i];
  }

  /** Groups the records by release year in one pass, as a map from year to
      the year's entries in input order; only years that have records get a
      key. */
  method GroupByYear(data: seq<Record>, parse: string -> Option<real>)
    returns (yearFilms: map<int, seq<RankedEntry>>)
    ensures forall y :: y in yearFilms ==> yearFilms[y] == YearGroup(data, y, parse) && yearFilms[y] != []
    ensures forall y :: y !in yearFilms ==> YearGroup(data, y, parse) == []
  {
    yearFilms := map[];
    var i := 0;
    while i < |data|
      invariant 0 <= i <= |data|
      invariant forall y :: y in yearFilms ==> yearFilms[y] == YearGroup(data[..i], y, parse) && yearFilms[y] != []
      invariant forall y :: y !in yearFilms ==> YearGroup(data[..i], y, parse) == []
    {
      YearGroupStep(data, i, parse);
      var film := data[i];
      if IsYearText(film.releaseDate) {
        var filmYear := Text.DigitsValue(film.releaseDate);
        var entry := RankedEntry(film.filmName, RatingValue(film.rating, parse), film.watchDate);
        var list := if filmYear in yearFilms then yearFilms[filmYear] else [];
        yearFilms := yearFilms[filmYear := list + [entry]];
      }
      i := i + 1;
    }
    assert data[..i] == data;
  }

  /** Groups the records by year, sorts the requested year's list in place
      and keeps its first ten entries. */
  method GetTopFilmsByYear(data: seq<Record>, year: int, parse: string -> Option<real>)
    returns (films: seq<RankedEntry>)
    ensures films == TopFilms(data, year, parse)
  {
    var yearFilms := GroupByYear(data, parse);
    var group := if year in yearFilms then yearFilms[year] else [];
    var a := new RankedEntry[|group|](k requires 0 <= k < |group| => group[k]);
    assert a[..] == group;
    StableSort.SortInPlace(a, ByRating);
    films := if a.Length <= TopCount then a[..] else a[..TopCount];
  }

  // Rating conversion

  /** The four conversion rules, in the order they are tried. The conversion
      is total: an unreadable rating becomes 0, it never drops the record. */
  lemma RatingRules(text: string, parse: string -> Option<real>)
    ensures text == NoRating ==> RatingValue(text, parse) == 0.0
    ensures |text| > 0 && text[0] == Star ==> RatingValue(text, parse) == |text| as real
    ensures |text| > 0 && text[0] == HalfStar ==> RatingValue(text, parse) == 0.5
    ensures text != NoRating && (|text| == 0 || text[0] !in {Star, HalfStar}) ==>
      RatingValue(text, parse) == parse(text).GetOr(0.0)
  {
  }

  /** A rating of `halfStars` half stars as the diary page shows it: a star per
      whole unit, then a half star if one is left over. */
  function RatingText(halfStars: nat): (t: string)
    ensures |t| == halfStars / 2 + halfStars % 2
  {
    seq(halfStars / 2, _ => Star) + (if halfStars % 2 == 1 then [HalfStar] else [])
  }

  /** What the conversion makes of each displayed rating: a lone half star
      is 0.5, but any other text starting with a star counts its characters,
      so a trailing half star counts as a whole one (4.5 stars become 5). */
  lemma RatingOfRatingText(halfStars: nat, parse: string -> Option<real>)
    requires halfStars >= 1
    ensures RatingValue(RatingText(halfStars), parse) ==
      if halfStars == 1 then 0.5 else ((halfStars + 1) / 2) as real
    ensures halfStars % 2 == 0 ==> RatingValue(RatingText(halfStars), parse) == (halfStars / 2) as real
  {
    var t := RatingText(halfStars);
    if halfStars >= 2 {
      assert t[0] == Star;
    } else {
      assert t == [HalfStar];
    }
  }

  /** The case that shows it: four and a half stars rate as five. */
  lemma FourAndAHalfStarsRateFive(parse: string -> Option<real>)
    ensures RatingValue("★★★★½", parse) == 5.0
  {
    RatingOfRatingText(9, parse);
    assert RatingText(9) == "★★★★½";
  }

  // Grouping by year

  /** Positions of the records released in `year`. */
  ghost function YearIndices(data: seq<Record>, year: int): set<nat> {
    set k: nat | k < |data| && YearOf(data[k]) == Some(year)
  }

  /** How many records have `year` as their release year. */
  ghost function CountYear(data: seq<Record>, year: int): nat {
    |YearIndices(data, year)|
  }

  lemma YearIndicesSnoc(data: seq<Record>, year: int)
    requires data != []
    ensures YearIndices(data, year) ==
      YearIndices(data[..|data| - 1], year) + (if YearOf(data[|data| - 1]) == Some(year) then {|data| - 1} else {})
  {
    var n := |data| - 1;
    var p := data[..n];
    forall k: nat | k < n
      ensures k in YearIndices(data, year) <==> k in YearIndices(p, year)
    {
      assert p[k] == data[k];
    }
  }

  /** A year's group has one entry per record released that year. */
  lemma {:induction false} YearGroupLength(data: seq<Record>, year: int, parse: string -> Option<real>)
    ensures |YearGroup(data, year, parse)| == CountYear(data, year)
    decreases |data|
  {
    if data != [] {
      var n := |data| - 1;
      YearGroupLength(data[..n], year, parse);
      YearIndicesSnoc(data, year);
      assert n !in YearIndices(data[..n], year);
    }
  }

  /** A year's group holds exactly the entries of the records of that year. */
  lemma {:induction false} YearGroupMembers(data: seq<Record>, year: int, parse: string -> Option<real>, e: RankedEntry)
    ensures e in YearGroup(data, year, parse) <==>
      exists k :: 0 <= k < |data| && YearOf(data[k]) == Some(year) && Rank(data[k], parse) == e
    decreases |data|
  {
    if data != [] {
      var n := |data| - 1;
      var p := data[..n];
      var tail := if YearOf(data[n]) == Some(year) then [Rank(data[n], parse)] else [];
      assert YearGroup(data, year, parse) == YearGroup(p, year, parse) + tail;
      YearGroupMembers(p, year, parse, e);
      if e in YearGroup(p, year, parse) {
        var k :| 0 <= k < |p| && YearOf(p[k]) == Some(year) && Rank(p[k], parse) == e;
        assert data[k] == p[k];
      } else if e in tail {
        assert YearOf(data[n]) == Some(year) && Rank(data[n], parse) == e;
      } else {
        assert forall k :: 0 <= k < n ==> data[k] == p[k];
      }
    }
  }

  /** Grouping works record by record: the group of two lists one after the
      other is the first list's group followed by the second's. */
  lemma {:induction false} YearGroupAppend(a: seq<Record>, b: seq<Record>, year: int, parse: string -> Option<real>)
    ensures YearGroup(a + b, year, parse) == YearGroup(a, year, parse) + YearGroup(b, year, parse)
    decreases |b|
  {
    if b == [] {
      assert a + b == a;
    } else {
      var n := |b| - 1;
      assert (a + b)[..|a + b| - 1] == a + b[..n];
      YearGroupAppend(a, b[..n], year, parse);
    }
  }

  /** A record whose release date is not four ASCII digits takes no part in
      any year's ranking: removing it changes nothing. */
  lemma InvalidYearIgnored(a: seq<Record>, r: Record, b: seq<Record>, year: int, parse: string -> Option<real>)
    requires !IsYearText(r.releaseDate)
    ensures TopFilms(a + [r] + b, year, parse) == TopFilms(a + b, year, parse)
  {
    YearGroupAppend(a + [r], b, year, parse);
    YearGroupAppend(a, [r], year, parse);
    YearGroupAppend(a, b, year, parse);
    assert YearGroup([r], year, parse) == [];
    assert YearGroup(a + [r] + b, year, parse) == YearGroup(a + b, year, parse);
  }

  // The ranking

  /** The ranking has min(10, n) entries, n being the number of records
      released in that year; a year without records gives an empty ranking. */
  lemma TopFilmsLength(data: seq<Record>, year: int, parse: string -> Option<real>)
    ensures |TopFilms(data, year, parse)| == if CountYear(data, year) <= TopCount then CountYear(data, year) else TopCount
    ensures CountYear(data, year) == 0 ==> TopFilms(data, year, parse) == []
  {
    YearGroupLength(data, year, parse);
    StableSort.SortDescPermutes(YearGroup(data, year, parse), ByRating);
  }

  /** Ratings never increase along the ranking. */
  lemma TopFilmsSorted(data: seq<Record>, year: int, parse: string -> Option<real>)
    ensures forall i, j :: 0 <= i < j < |TopFilms(data, year, parse)| ==>
      TopFilms(data, year, parse)[i].rating >= TopFilms(data, year, parse)[j].rating
  {
    var sorted := StableSort.SortDesc(YearGroup(data, year, parse), ByRating);
    StableSort.SortDescSorted(YearGroup(data, year, parse), ByRating);
    var top := TopFilms(data, year, parse);
    forall i, j | 0 <= i < j < |top|
      ensures top[i].rating >= top[j].rating
    {
      assert top[i] == sorted[i] && top[j] == sorted[j];
      assert ByRating(sorted[i]) >= ByRating(sorted[j]);
    }
  }

  /** Ties keep their input order: the entries of the ranking rated `v` are
      the first entries rated `v` of the year's group, in the same order. */
  lemma TopFilmsStable(data: seq<Record>, year: int, parse: string -> Option<real>, v: real)
    ensures StableSort.WithKey(TopFilms(data, year, parse), ByRating, v) <=
      StableSort.WithKey(YearGroup(data, year, parse), ByRating, v)
  {
    var group := YearGroup(data, year, parse);
    var sorted := StableSort.SortDesc(group, ByRating);
    StableSort.SortDescPermutes(group, ByRating);
    StableSort.SortDescStable(group, ByRating, v);
    var top := TopFilms(data, year, parse);
    assert top == sorted[..|top|];
    StableSort.WithKeyOfPrefix(sorted, |top|, ByRating, v);
  }

  /** Each ranking entry is a record of that year with its film name and watch
      date unchanged and its rating converted; no record is used twice. */
  lemma TopFilmsFromYear(data: seq<Record>, year: int, parse: string -> Option<real>)
    ensures multiset(TopFilms(data, year, parse)) <= multiset(YearGroup(data, year, parse))
    ensures forall i :: 0 <= i < |TopFilms(data, year, parse)| ==>
      exists k :: (0 <= k < |data| && YearOf(data[k]) == Some(year)
        && TopFilms(data, year, parse)[i].filmName == data[k].filmName
        && TopFilms(data, year, parse)[i].watchDate == data[k].watchDate
        && TopFilms(data, year, parse)[i].rating == RatingValue(data[k].rating, parse))
  {
    var group := YearGroup(data, year, parse);
    var sorted := StableSort.SortDesc(group, ByRating);
    StableSort.SortDescPermutes(group, ByRating);
    var top := TopFilms(data, year, parse);
    TakeIsSubMultiset(sorted, TopCount);
    forall i | 0 <= i < |top|
      ensures exists k :: (0 <= k < |data| && YearOf(data[k]) == Some(year)
        && top[i].filmName == data[k].filmName
        && top[i].watchDate == data[k].watchDate
        && top[i].rating == RatingValue(data[k].rating, parse))
    {
      assert top[i] in multiset(group);
      YearGroupMembers(data, year, parse, top[i]);
    }
  }

  /** Only the best-rated entries make the cut: every entry of the year that is
      left out of the ranking is rated no higher than any entry in it. */
  lemma TopFilmsAreHighest(data: seq<Record>, year: int, parse: string -> Option<real>, e: RankedEntry)
    requires e in multiset(YearGroup(data, year, parse)) - multiset(TopFilms(data, year, parse))
    ensures forall i :: 0 <= i < |TopFilms(data, year, parse)| ==> TopFilms(data, year, parse)[i].rating >= e.rating
  {
    var group := YearGroup(data, year, parse);
    var sorted := StableSort.SortDesc(group, ByRating);
    StableSort.SortDescPermutes(group, ByRating);
    StableSort.SortDescSorted(group, ByRating);
    var top := TopFilms(data, year, parse);
    assert top == sorted[..|top|];
    StableSort.SortedPrefixDominates(sorted, |top|, ByRating, e);
    assert forall i :: 0 <= i < |top| ==> top[i] == sorted[i];
  }

  /** The ranking is the first ten entries of any stable descending sort of
      the year's group, not only of the one used here. */
  lemma TopFilmsOfAnyStableSort(data: seq<Record>, year: int, parse: string -> Option<real>, t: seq<RankedEntry>)
    requires StableSort.SortedDesc(t, ByRating)
    requires forall v :: StableSort.WithKey(t, ByRating, v) == StableSort.WithKey(YearGroup(data, year, parse), ByRating, v)
    ensures TopFilms(data, year, parse) == Take(t, TopCount)
  {
    StableSort.SortDescUnique(YearGroup(data, year, parse), t, ByRating);
  }

  /** The years of the example's three release dates. */
  lemma ExampleYears(a: Record, b: Record, c: Record)
    requires a.releaseDate == "1999" && b.releaseDate == "1999" && c.releaseDate == "2000"
    ensures YearOf(a) == Some(1999) && YearOf(b) == Some(1999) && YearOf(c) == Some(2000)
  {
    assert Text.NatToString(1999) == "1999" && Text.NatToString(2000) == "2000";
    YearOfCanonical(a, 1999);
    YearOfCanonical(b, 1999);
    YearOfCanonical(c, 2000);
  }

  /** Two 1999 films rated five and three stars and a 2000 film without a
      rating: the 1999 ranking is the five-star film, then the three-star one. */
  lemma RankingExample(parse: string -> Option<real>)
    ensures TopFilms([
        Record("Film A", "1999", "★★★★★", "01 Jan"),
        Record("Film B", "1999", "★★★", "02 Jan"),
        Record("Film C", "2000", NoRating, "03 Jan")], 1999, parse)
      == [RankedEntry("Film A", 5.0, "01 Jan"), RankedEntry("Film B", 3.0, "02 Jan")]
  {
    var a := Record("Film A", "1999", "★★★★★", "01 Jan");
    var b := Record("Film B", "1999", "★★★", "02 Jan");
    var c := Record("Film C", "2000", NoRating, "03 Jan");
    var data := [a, b, c];
    ExampleYears(a, b, c);
    var ea, eb := Rank(a, parse), Rank(b, parse);
    assert ea == RankedEntry("Film A", 5.0, "01 Jan");
    assert eb == RankedEntry("Film B", 3.0, "02 Jan");
    assert data[..2] == [a, b] && [a, b][..1] == [a] && [a][..0] == [];
    assert YearGroup([a], 1999, parse) == [ea];
    assert YearGroup([a, b], 1999, parse) == [ea, eb];
    assert YearOf(c) == Some(2000);
    assert YearGroup(data, 1999, parse) == [ea, eb];
    assert [ea, eb][..1] == [ea] && [ea][..0] == [];
    assert StableSort.SortDesc([ea], ByRating) == [ea];
    assert StableSort.SortDesc([ea, eb], ByRating) == [ea, eb];
  }
}
