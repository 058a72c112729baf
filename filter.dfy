/** The second set of selection helpers: rows of a continent, of a country
    and of a year of the long table. */
module RowFilters {
  import opened Frames
  import DataFilter

  /** `data[data['Continent'] == val]`. */
  function Region(data: Frame, val: Cell): (r: Result<Frame>)
    ensures r.Err? <==> DataFilter.ContinentLabel !in data.columns
    ensures r.Err? ==> r.error == KeyError(DataFilter.ContinentLabel)
    ensures r.Ok? ==> r.value.columns == data.columns
    ensures r.Ok? ==> forall row :: row in r.value.rows <==> row in data.rows && CellEquals(Get(row, DataFilter.ContinentLabel), val)
    ensures r.Ok? ==> IsSubsequence(r.value.rows, data.rows)
    ensures r.Ok? ==> |r.value.rows| == Count(data.rows, row => CellEquals(Get(row, DataFilter.ContinentLabel), val))
  {
    DataFilter.Where(data, DataFilter.ContinentLabel, val)
  }

  /** `data[data['Country Name'] == val]`. */
  function Country(data: Frame, val: Cell): (r: Result<Frame>)
    ensures r.Err? <==> DataFilter.CountryLabel !in data.columns
    ensures r.Err? ==> r.error == KeyError(DataFilter.CountryLabel)
    ensures r.Ok? ==> r.value.columns == data.columns
    ensures r.Ok? ==> forall row :: row in r.value.rows <==> row in data.rows && CellEquals(Get(row, DataFilter.CountryLabel), val)
    ensures r.Ok? ==> IsSubsequence(r.value.rows, data.rows)
    ensures r.Ok? ==> |r.value.rows| == Count(data.rows, row => CellEquals(Get(row, DataFilter.CountryLabel), val))
  {
    DataFilter.Where(data, DataFilter.CountryLabel, val)
  }

  /** `data[data['Year'] == val]`. */
  function Year(data: Frame, val: Cell): (r: Result<Frame>)
    ensures r.Err? <==> DataFilter.YearLabel !in data.columns
    ensures r.Err? ==> r.error == KeyError(DataFilter.YearLabel)
    ensures r.Ok? ==> r.value.columns == data.columns
    ensures r.Ok? ==> forall row :: row in r.value.rows <==> row in data.rows && CellEquals(Get(row, DataFilter.YearLabel), val)
    ensures r.Ok? ==> IsSubsequence(r.value.rows, data.rows)
    ensures r.Ok? ==> |r.value.rows| == Count(data.rows, row => CellEquals(Get(row, DataFilter.YearLabel), val))
  {
    DataFilter.Where(data, DataFilter.YearLabel, val)
  }

  /** Selecting a region and then a year is the same as selecting the year
      and then the region. */
  lemma RegionYearCommute(data: Frame, region: Cell, year: Cell)
    requires DataFilter.ContinentLabel in data.columns && DataFilter.YearLabel in data.columns
    ensures Year(Region(data, region).value, year) == Region(Year(data, year).value, region)
  {
    DataFilter.WhereCommutes(data, DataFilter.ContinentLabel, region, DataFilter.YearLabel, year);
  }
}
