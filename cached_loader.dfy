/** The caching loader of data/test.py: it keeps the last table read, the
    modification time it was read at, and the country list and year labels
    derived from it, and re-reads the file only when forced or when the
    modification time has changed. */
module CachedLoader {
  import opened Wrappers
  import opened Sequences
  import opened Happiness

  /** What `load_data` did: answered from the cache without reading the file,
      read the file and replaced the cache, or raised. */
  datatype Outcome = Hit(table: Table) | Reloaded | Failed(error: Error)

  /** The loader's fields `happiness_data`, `_mtime`, `country_list` and
      `dict_years` at one moment. */
  datatype Cache = Cache(
    data: Option<Table>,
    mtime: Option<int>,
    countryList: seq<string>,
    dictYears: Option<seq<(string, string)>>)

  /** `_get_mtime`: the file's modification time, -1 when it does not exist. */
  function GetMtime(file: CsvFile): (m: int)
    ensures file.Present? ==> m == file.mtime
    ensures m < 0 <==> file.Missing? || file.mtime < 0
  {
    if file.Missing? then -1 else file.mtime
  }

  /** The country list `_rebuild_country_list` derives: empty when nothing is loaded. */
  function CountryNames(data: Option<Table>): seq<string>
  {
    if data.None? then [] else CountryList(data.value)
  }

  /** The cache's invariant: a modification time is recorded exactly when a
      table is, it is never the missing-file sentinel, and both derived indexes
      are those of the cached table. */
  ghost predicate Consistent(c: Cache): (r: bool)
    ensures r && c.data.None? ==> c.mtime == None && c.countryList == [] && c.dictYears == None
    ensures r && c.data.Some? ==>
      && c.mtime.Some? && c.mtime.value >= 0
      && (forall s :: s in c.countryList <==> s != "" && HasCountry(c.data.value, s))
      && c.dictYears.Some?
      && (forall x :: x in c.data.value ==> HasKey(c.dictYears.value, Text.Decimal(x.year)))
  {
    && (c.data.Some? <==> c.mtime.Some?)
    && (c.mtime.Some? ==> c.mtime.value >= 0)
    && c.countryList == CountryNames(c.data)
    && c.dictYears == (if c.data.Some? then Some(YearLabels(c.data.value)) else None)
  }

  /** The fast path of `load_data`: not forced, a table cached, and the
      observed modification time the recorded one. */
  predicate IsHit(c: Cache, force: bool, file: CsvFile) {
    !force && c.data.Some? && c.mtime == Some(GetMtime(file))
  }

  /** `load_data(force)` as a transition from the loader's fields before the
      call to its fields after it, with what the call did. */
  function LoadStep(c: Cache, force: bool, file: CsvFile): (res: (Cache, Outcome))
    ensures res.1.Hit? <==> IsHit(c, force, file)
    ensures IsHit(c, force, file) ==> res == (c, Hit(c.data.value))
    ensures res.1 == Reloaded <==> !IsHit(c, force, file) && GetMtime(file) >= 0 && file.parsed.Some?
    ensures res.1 == Failed(FileNotFound) <==> !IsHit(c, force, file) && GetMtime(file) < 0
    ensures res.1 == Failed(SchemaError) <==> !IsHit(c, force, file) && GetMtime(file) >= 0 && file.parsed.None?
    ensures res.1.Failed? ==> res.0 == c
    ensures res.1 == Reloaded ==>
      var t := file.parsed.value;
      res.0 == Cache(Some(t), Some(file.mtime), CountryList(t), Some(YearLabels(t)))
    ensures Consistent(c) ==> Consistent(res.0)
  {
    var m := GetMtime(file);
    if IsHit(c, force, file) then (c, Hit(c.data.value))
    else if m < 0 then (c, Failed(FileNotFound))
    else match ReadCsv(file)
      case Failure(e) => (c, Failed(e))
      case Success(t) => (Cache(Some(t), Some(m), CountryList(t), Some(YearLabels(t))), Reloaded)
  }

  /** Loading twice with no change to the file reads it at most once: after a
      reload, a second unforced load is answered from the cache. */
  lemma SecondLoadHits(c: Cache, force: bool, file: CsvFile)
    requires LoadStep(c, force, file).1 == Reloaded
    ensures var c' := LoadStep(c, force, file).0;
      LoadStep(c', false, file) == (c', Hit(file.parsed.value))
  {
  }

  /** A forced load of an existing file always reads it: it reloads, or the
      read itself fails. */
  lemma ForcedLoadReads(c: Cache, file: CsvFile)
    requires GetMtime(file) >= 0
    ensures LoadStep(c, true, file).1 in {Reloaded, Failed(SchemaError)}
  {
  }

  /** A missing file is retryable: the failed load leaves the cache as it was,
      so a later load sees the file once it exists. */
  lemma MissingFileThenPresent(c: Cache, force: bool, file: CsvFile)
    requires Consistent(c) && file.Present? && file.mtime >= 0 && file.parsed.Some?
    ensures var after := LoadStep(c, force, Missing);
      && after == (c, Failed(FileNotFound))
      && (c.data.None? ==> LoadStep(after.0, false, file).1 == Reloaded)
  {
  }

  /** An unforced load of a readable file whose modification time differs
      from the recorded one reads it again. */
  lemma ChangedFileReloads(c: Cache, file: CsvFile)
    requires c.data.Some?
    requires GetMtime(file) >= 0 && c.mtime != Some(GetMtime(file))
    requires file.parsed.Some?
    ensures LoadStep(c, false, file).1 == Reloaded
    ensures LoadStep(c, false, file).0.data == file.parsed
  {
  }

  class DataLoader {
    const path: string
    var happinessData: Option<Table>
    var countryList: seq<string>
    var mtime: Option<int>
    var dictYears: Option<seq<(string, string)>>

    /** The fields as one value. */
    function State(): Cache
      reads this
    {
      Cache(happinessData, mtime, countryList, dictYears)
    }

    ghost predicate Valid()
      reads this
    {
      Consistent(State())
    }

    /** Nothing cached. */
    constructor ()
      ensures Valid()
      ensures path == "data/WHR2024.csv"
      ensures happinessData == None && mtime == None && countryList == [] && dictYears == None
    {
      path := "data/WHR2024.csv";
      happinessData := None;
      countryList := [];
      mtime := None;
      dictYears := None;
    }

    /** `_rebuild_country_list`: recompute the country list from the cached
        table; empty when there is none. */
    method RebuildCountryList()
      modifies this`countryList
      ensures countryList == CountryNames(happinessData)
      ensures happinessData.None? ==> countryList == []
      ensures happinessData.Some? ==>
        && NoDuplicates(countryList)
        && "" !in countryList
        && SortedBy(countryList, Text.CasefoldLe)
        && (forall s :: s in countryList <==> s != "" && HasCountry(happinessData.value, s))
        && forall i, j :: 0 <= i < j < |countryList| && Text.CasefoldLe(countryList[j], countryList[i]) ==>
          FirstSeenBefore(NamesOf(happinessData.value), countryList[i], countryList[j])
    {
      if happinessData.None? {
        countryList := [];
        return;
      }
      countryList := CountryList(happinessData.value);
    }

    /** `load_data(force)`, with `file` standing for the file at `path` when
        the call observes it. */
    method LoadData(force: bool, file: CsvFile) returns (outcome: Outcome)
      modifies this
      ensures (State(), outcome) == LoadStep(old(State()), force, file)
      ensures old(Valid()) ==> Valid()
    {
      var m := GetMtime(file);
      if !force && happinessData.Some? && mtime == Some(m) {
        return Hit(happinessData.value);
      }
      if m < 0 {
        return Failed(FileNotFound);
      }
      var read := ReadCsv(file);
      if read.Failure? {
        return Failed(read.error);
      }
      happinessData := Some(read.value);
      mtime := Some(m);
      RebuildCountryList();
      dictYears := Some(YearLabels(happinessData.value));
      outcome := Reloaded;
    }

    /** `get_top10_happiest_countries(year, top)` */
    function GetTop10HappiestCountries(year: int, top: int): (r: Result<Table, Error>)
      reads this
      ensures happinessData.None? ==> r == Failure(NotLoaded)
      ensures happinessData.Some? ==> r.Success? && IsTopN(r.value, happinessData.value, year, top)
    {
      if happinessData.None? then Failure(NotLoaded)
      else Success(TopByScore(happinessData.value, year, top))
    }

    /** `get_data_by_year(year)` */
    function GetDataByYear(year: int): (r: Result<Table, Error>)
      reads this
      ensures happinessData.None? ==> r == Failure(NotLoaded)
      ensures happinessData.Some? ==> r.Success? && IsYearSlice(r.value, happinessData.value, year)
    {
      if happinessData.None? then Failure(NotLoaded)
      else Success(ByYear(happinessData.value, year))
    }

    /** `get_data_by_country(country)` */
    function GetDataByCountry(country: string): (r: Result<Table, Error>)
      reads this
      ensures happinessData.None? ==> r == Failure(NotLoaded)
      ensures happinessData.Some? ==> r.Success? && IsCountryHistory(r.value, happinessData.value, country)
      ensures happinessData.Some? && !HasCountry(happinessData.value, country) ==> r == Success([])
    {
      if happinessData.None? then Failure(NotLoaded)
      else
        AbsentCountryIsEmpty(happinessData.value, country);
        Success(ByCountry(happinessData.value, country))
    }

    /** `get_clean_data_for_scatter()` */
    function GetCleanDataForScatter(): (r: Result<seq<(real, real)>, Error>)
      reads this
      ensures happinessData.None? ==> r == Failure(NotLoaded)
      ensures happinessData.Some? ==> r.Success? && forall p :: p in r.value <==> HasPoint(happinessData.value, p)
      ensures happinessData.Some? ==>
        && r.Success?
        && var c := Filter(happinessData.value, Complete);
          && |r.value| == |c|
          && forall i :: 0 <= i < |c| ==> r.value[i] == Point(c[i])
    {
      if happinessData.None? then Failure(NotLoaded)
      else
        ScatterIsProjection(happinessData.value);
        Success(ScatterPoints(happinessData.value))
    }
  }
}
