/** The uncached loader of data/data_con.py: `load_data` reads the whole file
    into its one field, and every getter derives its answer from that field
    on demand. */
module PlainLoader {
  import opened Wrappers
  import opened Sequences
  import opened Text
  import opened Happiness

  class DataLoader {
    var happinessData: Option<Table>

    constructor ()
      ensures happinessData == None
    {
      happinessData := None;
    }

    /** `load_data()`: read the file, keep the table and return it. A failed
        read raises before the field is assigned. */
    method LoadData(file: CsvFile) returns (r: Result<Table, Error>)
      modifies this
      ensures r == ReadCsv(file)
      ensures happinessData == if r.Success? then Some(r.value) else old(happinessData)
    {
      r := ReadCsv(file);
      if r.Success? {
        happinessData := Some(r.value);
      }
    }

    /** `get_country_list()` */
    function GetCountryList(): (r: Result<seq<string>, Error>)
      reads this
      ensures happinessData.None? ==> r == Failure(NotLoaded)
      ensures happinessData.Some? ==>
        && r.Success?
        && NoDuplicates(r.value)
        && (forall s :: s in r.value <==> HasCountry(happinessData.value, s))
        && FirstOccurrenceOrder(r.value, NamesOf(happinessData.value))
    {
      if happinessData.None? then Failure(NotLoaded)
      else Success(FirstSeenCountries(happinessData.value))
    }

    /** `get_dict_years()` */
    function GetDictYears(): (r: Result<seq<(string, string)>, Error>)
      reads this
      ensures happinessData.None? ==> r == Failure(NotLoaded)
      ensures happinessData.Some? ==>
        && r.Success?
        && (forall i :: 0 <= i < |r.value| ==> r.value[i].1 == r.value[i].0 && IsDecimalText(r.value[i].0))
        && (forall i, j :: 0 <= i < j < |r.value| ==> ParseDecimal(r.value[i].0) < ParseDecimal(r.value[j].0))
        && (forall i :: 0 <= i < |r.value| ==> HasYear(happinessData.value, ParseDecimal(r.value[i].0)))
        && (forall x :: x in happinessData.value ==> HasKey(r.value, Decimal(x.year)))
    {
      if happinessData.None? then Failure(NotLoaded)
      else Success(YearLabels(happinessData.value))
    }

    /** `get_shape()`: the row count and the four columns kept on load. */
    function GetShape(): (r: Result<string, Error>)
      reads this
      ensures happinessData.None? ==> r == Failure(NotLoaded)
      ensures happinessData.Some? ==> r.Success? && IsShapeText(r.value, |happinessData.value|, 4)
    {
      if happinessData.None? then Failure(NotLoaded)
      else Success(ShapeText(|happinessData.value|, |Columns|))
    }

    /** `get_range_years()`: raises on an empty table, where `min()` has no years. */
    function GetRangeYears(): (r: Result<string, Error>)
      reads this
      ensures happinessData.None? ==> r == Failure(NotLoaded)
      ensures happinessData == Some([]) ==> r == Failure(EmptyTable)
      ensures happinessData.Some? && happinessData.value != [] ==>
        && r.Success?
        && exists lo, hi ::
          && IsRangeText(r.value, lo, hi)
          && lo <= hi
          && HasYear(happinessData.value, lo) && HasYear(happinessData.value, hi)
          && (forall x :: x in happinessData.value ==> lo <= x.year <= hi)
    {
      if happinessData.None? then Failure(NotLoaded)
      else match YearRange(happinessData.value)
        case Failure(e) => Failure(e)
        case Success((lo, hi)) =>
          assert happinessData.value[0] in happinessData.value;
          Success(RangeText(lo, hi))
    }

    /** `get_top10_happiest_countries(year)` */
    function GetTop10HappiestCountries(year: int): (r: Result<Table, Error>)
      reads this
      ensures happinessData.None? ==> r == Failure(NotLoaded)
      ensures happinessData.Some? ==> r.Success? && |r.value| <= 10 && IsTopN(r.value, happinessData.value, year, 10)
    {
      if happinessData.None? then Failure(NotLoaded)
      else Success(TopByScore(happinessData.value, year, 10))
    }

    /** `get_data_by_year(year)` */
    function GetDataByYear(year: int): (r: Result<Table, Error>)
      reads this
      ensures happinessData.None? ==> r == Failure(NotLoaded)
      ensures happinessData.Some? ==> r.Success? && IsYearSlice(r.value, happinessData.value, year)
    {
      if happinessData.None? then Failure(NotLoaded)
      else Success(ByYear(happinessData.value, year))
    }

    /** `get_data_by_country(country)` */
    function GetDataByCountry(country: string): (r: Result<Table, Error>)
      reads this
      ensures happinessData.None? ==> r == Failure(NotLoaded)
      ensures happinessData.Some? ==> r.Success? && IsCountryHistory(r.value, happinessData.value, country)
      ensures happinessData.Some? && !HasCountry(happinessData.value, country) ==> r == Success([])
    {
      if happinessData.None? then Failure(NotLoaded)
      else
        AbsentCountryIsEmpty(happinessData.value, country);
        Success(ByCountry(happinessData.value, country))
    }
  }
}
