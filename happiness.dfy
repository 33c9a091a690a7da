/** The happiness table and the queries both loaders run over it: the rows of
    one year, the top rows of a year by ladder score, one country's rows by
    year, the score/GDP pairs of the scatter plot, and the derived year labels
    and country lists. */
module Happiness {
  import opened Wrappers
  import opened Sequences
  import opened Text

  /** One row of the four columns kept on load. Ladder score and GDP may be
      missing (NaN in the data frame); only their order matters, so they are
      reals. */
  datatype Row = Row(year: int, country: string, score: Option<real>, gdp: Option<real>)

  type Table = seq<Row>

  /** The `usecols` list passed to the CSV reader: the loaded table has these
      columns and no others. */
  const Columns: seq<string> :=
    ["Year", "Country name", "Ladder score", "Explained by: Log GDP per capita"]

  /** FileNotFound and SchemaError are raised by `load_data`; NotLoaded is the
      `ValueError` of a getter called before a load; EmptyTable is the
      `ValueError` of `min()` on no years. */
  datatype Error = NotLoaded | FileNotFound | SchemaError | EmptyTable

  /** The file at the loader's path as the loader observes it: missing, or
      present with a modification time and the outcome of parsing it with
      `usecols` (None when a required column is absent or unparsable). */
  datatype CsvFile = Missing | Present(mtime: int, parsed: Option<Table>)

  /** `pd.read_csv(path, usecols=Columns)`. */
  function ReadCsv(file: CsvFile): (r: Result<Table, Error>)
    ensures r.Success? <==> file.Present? && file.parsed.Some?
    ensures r.Success? ==> r.value == file.parsed.value
    ensures r.Failure? ==> r.error == (if file.Missing? then FileNotFound else SchemaError)
  {
    match file
    case Missing => Failure(FileNotFound)
    case Present(_, parsed) => if parsed.Some? then Success(parsed.value) else Failure(SchemaError)
  }

  /** Some row of `t` is of year `y`. */
  ghost predicate HasYear(t: Table, y: int) {
    exists x :: x in t && x.year == y
  }

  /** Some row of `t` carries the country name `name`. */
  ghost predicate HasCountry(t: Table, name: string) {
    exists x :: x in t && x.country == name
  }

  // ---------------------------------------------------------------------
  // Rows of one year
  // ---------------------------------------------------------------------

  /** `r` holds exactly the rows of `t` with that year, in their original order. */
  ghost predicate IsYearSlice(r: Table, t: Table, year: int) {
    && (forall x :: x in r ==> x.year == year)
    && (forall x: Row :: x.year == year ==> multiset(r)[x] == multiset(t)[x])
    && IsSubsequence(r, t)
  }

  /** `t[t['Year'] == year]` */
  function ByYear(t: Table, year: int): (r: Table)
    ensures IsYearSlice(r, t, year)
  {
    Filter(t, (x: Row) => x.year == year)
  }

  // ---------------------------------------------------------------------
  // Top rows of one year by ladder score
  // ---------------------------------------------------------------------

  /** `a` may precede `b` when sorting by ladder score descending; a missing
      score sorts last, as `sort_values` puts NaN last. */
  predicate ScoreFirst(a: Row, b: Row): (r: bool)
    ensures a.score.Some? && b.score.Some? ==> (r <==> a.score.value >= b.score.value)
    ensures b.score.None? ==> r
    ensures a.score.None? && b.score.Some? ==> !r
  {
    b.score.None? || (a.score.Some? && a.score.value >= b.score.value)
  }

  lemma ScoreFirstTotalPreorder()
    ensures Total(ScoreFirst) && Transitive(ScoreFirst)
  {
  }

  /** Number of rows `head(top)` keeps out of `n`. */
  function HeadCount(n: nat, top: int): nat {
    if 0 <= top then Min(top, n) else Max(0, n + top)
  }

  /** `r` is a choice of the best-scoring rows of that year: as many as
      `head(top)` keeps, by score descending, none left out scoring higher
      than one kept. */
  ghost predicate IsTopN(r: Table, t: Table, year: int, top: int) {
    && (forall x :: x in r ==> x.year == year)
    && (forall x: Row :: multiset(r)[x] <= multiset(t)[x])
    && |r| == HeadCount(|ByYear(t, year)|, top)
    && SortedBy(r, ScoreFirst)
    && (forall x: Row, y :: x.year == year && multiset(r)[x] < multiset(t)[x] && y in r ==> ScoreFirst(y, x))
  }

  /** The leading rows of a score-sorted rearrangement of a year's rows are
      a top-N choice for that year. */
  lemma TopOfSortedSlice(t: Table, year: int, top: int, s: Table)
    requires forall x :: x in s ==> x.year == year
    requires forall x: Row :: x.year == year ==> multiset(s)[x] == multiset(t)[x]
    requires |s| == |ByYear(t, year)| && SortedBy(s, ScoreFirst)
    ensures IsTopN(Head(s, top), t, year, top)
  {
    var r := Head(s, top);
    SortedPrefix(s, |r|, ScoreFirst);
    assert r == s[..|r|];
    forall x: Row | x in r ensures x.year == year && multiset(r)[x] <= multiset(t)[x] {
      assert x in s;
    }
    forall x: Row | x.year == year && multiset(r)[x] < multiset(t)[x]
      ensures x in multiset(s[|r|..])
    {
    }
  }

  lemma TopOfSorted(t: Table, year: int, top: int)
    ensures IsTopN(Head(SortBy(ByYear(t, year), ScoreFirst), top), t, year, top)
  {
    var pool := ByYear(t, year);
    var s := SortBy(pool, ScoreFirst);
    ScoreFirstTotalPreorder();
    SortBySorted(pool, ScoreFirst);
    assert |s| == |multiset(s)| == |pool|;
    assert forall x :: x in s ==> x in multiset(pool);
    TopOfSortedSlice(t, year, top, s);
  }

  /** `t[t['Year'] == year].sort_values(by='Ladder score', ascending=False).head(top)` */
  function TopByScore(t: Table, year: int, top: int): (r: Table)
    ensures IsTopN(r, t, year, top)
  {
    TopOfSorted(t, year, top);
    Head(SortBy(ByYear(t, year), ScoreFirst), top)
  }

  // ---------------------------------------------------------------------
  // Rows of one country
  // ---------------------------------------------------------------------

  predicate YearFirst(a: Row, b: Row) {
    a.year <= b.year
  }

  /** `r` is a rearrangement of the rows of `t` with exactly that name, by
      year ascending. */
  ghost predicate IsCountryHistory(r: Table, t: Table, name: string) {
    && (forall x :: x in r ==> x.country == name)
    && (forall x: Row :: x.country == name ==> multiset(r)[x] == multiset(t)[x])
    && SortedBy(r, YearFirst)
  }

  /** Sorting by year the rows that carry `name`, each as often as in `t`,
      gives that country's history. */
  lemma SortedHistory(rows: Table, t: Table, name: string)
    requires forall x :: x in rows ==> x.country == name
    requires forall x: Row :: x.country == name ==> multiset(rows)[x] == multiset(t)[x]
    ensures IsCountryHistory(SortBy(rows, YearFirst), t, name)
  {
    assert Total(YearFirst) && Transitive(YearFirst);
    SortBySorted(rows, YearFirst);
    var r := SortBy(rows, YearFirst);
    assert forall x :: x in r ==> x in multiset(rows);
  }

  /** `t[t['Country name'] == name].sort_values(by='Year', ascending=True)` */
  function ByCountry(t: Table, name: string): (r: Table)
    ensures IsCountryHistory(r, t, name)
  {
    var rows := Filter(t, (x: Row) => x.country == name);
    SortedHistory(rows, t, name);
    SortBy(rows, YearFirst)
  }

  /** A name with no rows is an empty result, not an error. */
  lemma AbsentCountryIsEmpty(t: Table, name: string)
    ensures !HasCountry(t, name) ==> ByCountry(t, name) == []
  {
  }

  // ---------------------------------------------------------------------
  // Score/GDP pairs for the scatter plot
  // ---------------------------------------------------------------------

  predicate Complete(x: Row) {
    x.score.Some? && x.gdp.Some?
  }

  function Point(x: Row): (real, real)
    requires Complete(x)
  {
    (x.score.value, x.gdp.value)
  }

  /** Some complete row of `t` has the coordinates `p`. */
  ghost predicate HasPoint(t: Table, p: (real, real)) {
    exists x :: x in t && Complete(x) && p == Point(x)
  }

  /** `t[['Ladder score', 'Explained by: Log GDP per capita']].dropna()` */
  function ScatterPoints(t: Table): (r: seq<(real, real)>)
    ensures |r| <= |t|
    ensures forall p :: p in r <==> HasPoint(t, p)
  {
    if t == [] then []
    else
      assert t == [t[0]] + t[1..];
      var rest := ScatterPoints(t[1..]);
      if Complete(t[0]) then [Point(t[0])] + rest else rest
  }

  /** The pairs are the complete rows projected, one each, in table order. */
  lemma {:induction false} ScatterIsProjection(t: Table)
    ensures var c := Filter(t, Complete);
      |ScatterPoints(t)| == |c| && forall i :: 0 <= i < |c| ==> ScatterPoints(t)[i] == Point(c[i])
  {
    if t != [] {
      ScatterIsProjection(t[1..]);
    }
  }

  // ---------------------------------------------------------------------
  // Year list, year labels and year range
  // ---------------------------------------------------------------------

  function YearsOf(t: Table): (ys: seq<int>)
    ensures |ys| == |t| && forall i :: 0 <= i < |t| ==> ys[i] == t[i].year
    ensures forall y :: y in ys <==> HasYear(t, y)
  {
    var ys := seq(|t|, i requires 0 <= i < |t| => t[i].year);
    forall x | x in t ensures x.year in ys {
      var i :| 0 <= i < |t| && t[i] == x;
      assert ys[i] == x.year;
    }
    ys
  }

  predicate IntLe(a: int, b: int) {
    a <= b
  }

  lemma IntLeTotalPreorder()
    ensures Total(IntLe) && Transitive(IntLe)
  {
  }

  /** `sorted(t['Year'].unique())`: each year of the table once, ascending. */
  function SortedYears(t: Table): (ys: seq<int>)
    ensures forall i, j :: 0 <= i < j < |ys| ==> ys[i] < ys[j]
    ensures forall y :: y in ys <==> HasYear(t, y)
  {
    IntLeTotalPreorder();
    SortDistinct(YearsOf(t), IntLe);
    SortBy(Distinct(YearsOf(t)), IntLe)
  }

  /** Some entry of the association list `e` has the key `k`. */
  ghost predicate HasKey(e: seq<(string, string)>, k: string) {
    exists i :: 0 <= i < |e| && e[i].0 == k
  }

  /** Each year written out in decimal, paired with itself. */
  function SelfLabels(ys: seq<int>): seq<(string, string)> {
    seq(|ys|, i requires 0 <= i < |ys| => (Decimal(ys[i]), Decimal(ys[i])))
  }

  /** Labelling the table's distinct years, ascending, gives keys that read
      back as those years, each once, ascending, and covers every row. */
  lemma LabelYears(t: Table, ys: seq<int>)
    requires forall i, j :: 0 <= i < j < |ys| ==> ys[i] < ys[j]
    requires forall y :: y in ys <==> HasYear(t, y)
    ensures var e := SelfLabels(ys);
      && (forall i :: 0 <= i < |e| ==> e[i].1 == e[i].0 && IsDecimalText(e[i].0))
      && (forall i, j :: 0 <= i < j < |e| ==> ParseDecimal(e[i].0) < ParseDecimal(e[j].0))
      && (forall i, j :: 0 <= i < j < |e| ==> e[i].0 != e[j].0)
      && (forall i :: 0 <= i < |e| ==> HasYear(t, ParseDecimal(e[i].0)))
      && (forall x :: x in t ==> HasKey(e, Decimal(x.year)))
  {
    var e := SelfLabels(ys);
    forall i | 0 <= i < |ys| ensures IsDecimalText(e[i].0) && ParseDecimal(e[i].0) == ys[i] {
      DecimalRoundTrip(ys[i]);
    }
    forall i | 0 <= i < |ys| ensures HasYear(t, ParseDecimal(e[i].0)) {
      assert ys[i] in ys;
    }
    forall x | x in t ensures HasKey(e, Decimal(x.year)) {
      assert HasYear(t, x.year);
      var i :| 0 <= i < |ys| && ys[i] == x.year;
      assert e[i].0 == Decimal(x.year);
    }
  }

  /** `{str(year): str(year) for year in sorted(t['Year'].unique())}`, as the
      dictionary's entries in insertion order: each key labels itself, the
      keys are the table's years written out, each once, ascending. */
  function YearLabels(t: Table): (e: seq<(string, string)>)
    ensures forall i :: 0 <= i < |e| ==> e[i].1 == e[i].0 && IsDecimalText(e[i].0)
    ensures forall i, j :: 0 <= i < j < |e| ==> ParseDecimal(e[i].0) < ParseDecimal(e[j].0)
    ensures forall i, j :: 0 <= i < j < |e| ==> e[i].0 != e[j].0
    ensures forall i :: 0 <= i < |e| ==> HasYear(t, ParseDecimal(e[i].0))
    ensures forall x :: x in t ==> HasKey(e, Decimal(x.year))
  {
    var ys := SortedYears(t);
    LabelYears(t, ys);
    SelfLabels(ys)
  }

  /** The first and last of strictly ascending years are the table's least
      and greatest; there are none exactly when the table is empty. */
  lemma ExtremeYears(t: Table, ys: seq<int>)
    requires forall i, j :: 0 <= i < j < |ys| ==> ys[i] < ys[j]
    requires forall y :: y in ys <==> HasYear(t, y)
    ensures ys == [] <==> t == []
    ensures ys != [] ==>
      && HasYear(t, ys[0])
      && HasYear(t, ys[|ys| - 1])
      && (forall x :: x in t ==> ys[0] <= x.year <= ys[|ys| - 1])
  {
    if ys != [] {
      assert ys[0] in ys;
    }
    if t != [] {
      assert HasYear(t, t[0].year);
      assert ys[0] in ys && ys[|ys| - 1] in ys;
      forall x | x in t ensures ys[0] <= x.year <= ys[|ys| - 1] {
        assert HasYear(t, x.year);
        var k :| 0 <= k < |ys| && ys[k] == x.year;
      }
    }
  }

  /** `min` and `max` of the table's years; `min()` of no years raises. */
  function YearRange(t: Table): (r: Result<(int, int), Error>)
    ensures r.Failure? <==> t == []
    ensures r.Failure? ==> r.error == EmptyTable
    ensures r.Success? ==>
      && HasYear(t, r.value.0)
      && HasYear(t, r.value.1)
      && (forall x :: x in t ==> r.value.0 <= x.year <= r.value.1)
  {
    var ys := SortedYears(t);
    ExtremeYears(t, ys);
    if ys == [] then Failure(EmptyTable) else Success((ys[0], ys[|ys| - 1]))
  }

  // ---------------------------------------------------------------------
  // Country lists
  // ---------------------------------------------------------------------

  function NamesOf(t: Table): (names: seq<string>)
    ensures |names| == |t| && forall i :: 0 <= i < |t| ==> names[i] == t[i].country
    ensures forall s :: s in names <==> HasCountry(t, s)
  {
    var names := seq(|t|, i requires 0 <= i < |t| => t[i].country);
    forall x | x in t ensures x.country in names {
      var i :| 0 <= i < |t| && t[i] == x;
      assert names[i] == x.country;
    }
    names
  }

  predicate NonEmptyText(s: string) {
    s != ""
  }

  /** `sorted(t['Country name'].astype(str).replace({"": NA}).dropna().unique(),
      key=casefold)`: each non-empty name once, in case-fold order. */
  function CountryList(t: Table): (c: seq<string>)
    ensures NoDuplicates(c)
    ensures "" !in c
    ensures SortedBy(c, CasefoldLe)
    ensures forall s :: s in c <==> s != "" && HasCountry(t, s)
    ensures forall i, j :: 0 <= i < j < |c| && CasefoldLe(c[j], c[i]) ==>
      FirstSeenBefore(NamesOf(t), c[i], c[j])
  {
    var named := Filter(NamesOf(t), NonEmptyText);
    assert forall s :: s in named <==> s in multiset(named);
    CasefoldLeTotalPreorder();
    SortDistinct(named, CasefoldLe);
    CountryTiesFirstSeen(t, named, SortBy(Distinct(named), CasefoldLe));
    SortBy(Distinct(named), CasefoldLe)
  }

  /** Names whose case-folded forms tie keep the order in which the table
      first shows them. */
  lemma CountryTiesFirstSeen(t: Table, named: seq<string>, c: seq<string>)
    requires named == Filter(NamesOf(t), NonEmptyText)
    requires c == SortBy(Distinct(named), CasefoldLe)
    ensures forall i, j :: 0 <= i < j < |c| && CasefoldLe(c[j], c[i]) ==>
      FirstSeenBefore(NamesOf(t), c[i], c[j])
  {
    SortDistinctStable(named, CasefoldLe);
    var d := Distinct(named);
    forall i, j | 0 <= i < j < |c| && CasefoldLe(c[j], c[i])
      ensures FirstSeenBefore(NamesOf(t), c[i], c[j])
    {
      assert c[i] in multiset(d) && c[j] in multiset(d);
      assert NonEmptyText(c[i]) && NonEmptyText(c[j]);
      FilterFirstSeen(NamesOf(t), NonEmptyText, c[i], c[j]);
    }
  }

  /** `t['Country name'].unique().tolist()`: each name once, in order of first
      occurrence. */
  function FirstSeenCountries(t: Table): (c: seq<string>)
    ensures NoDuplicates(c)
    ensures forall s :: s in c <==> HasCountry(t, s)
    ensures FirstOccurrenceOrder(c, NamesOf(t))
  {
    Distinct(NamesOf(t))
  }

  // ---------------------------------------------------------------------
  // Messages
  // ---------------------------------------------------------------------

  /** `s` reads `Rows <rows> cols <cols>`, the counts written in decimal. */
  ghost predicate IsShapeText(s: string, rows: int, cols: int) {
    exists a, b ::
      && s == "Rows " + a + " cols " + b
      && IsDecimalText(a) && ParseDecimal(a) == rows
      && IsDecimalText(b) && ParseDecimal(b) == cols
  }

  /** `f"Rows {rows} cols {cols}"` */
  function ShapeText(rows: int, cols: int): (s: string)
    ensures IsShapeText(s, rows, cols)
  {
    DecimalRoundTrip(rows);
    DecimalRoundTrip(cols);
    "Rows " + Decimal(rows) + " cols " + Decimal(cols)
  }

  /** `s` reads `from <lo> to <hi>`, the bounds written in decimal. */
  ghost predicate IsRangeText(s: string, lo: int, hi: int) {
    exists a, b ::
      && s == "from " + a + " to " + b
      && IsDecimalText(a) && ParseDecimal(a) == lo
      && IsDecimalText(b) && ParseDecimal(b) == hi
  }

  /** `f"from {lo} to {hi}"` */
  function RangeText(lo: int, hi: int): (s: string)
    ensures IsRangeText(s, lo, hi)
  {
    DecimalRoundTrip(lo);
    DecimalRoundTrip(hi);
    "from " + Decimal(lo) + " to " + Decimal(hi)
  }
}
