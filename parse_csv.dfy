/** The first set of selection helpers: rows of a continent, rows of a
    country, and one year's column of the wide table. */
module ParseCsv {
  import opened Frames
  import DataFilter

  /** `data[data['Continent'] == val]`. */
  function FilterByRegion(data: Frame, val: Cell): (r: Result<Frame>)
    ensures r.Err? <==> DataFilter.ContinentLabel !in data.columns
    ensures r.Err? ==> r.error == KeyError(DataFilter.ContinentLabel)
    ensures r.Ok? ==> r.value.columns == data.columns
    ensures r.Ok? ==> forall row :: row in r.value.rows <==> row in data.rows && CellEquals(Get(row, DataFilter.ContinentLabel), val)
    ensures r.Ok? ==> IsSubsequence(r.value.rows, data.rows)
    ensures r.Ok? ==> |r.value.rows| == Count(data.rows, row => CellEquals(Get(row, DataFilter.ContinentLabel), val))
  {
    DataFilter.Where(data, DataFilter.ContinentLabel, val)
  }

  /** `data[data['Country Name'] == val]`. */
  function FilterByCountry(data: Frame, val: Cell): (r: Result<Frame>)
    ensures r.Err? <==> DataFilter.CountryLabel !in data.columns
    ensures r.Err? ==> r.error == KeyError(DataFilter.CountryLabel)
    ensures r.Ok? ==> r.value.columns == data.columns
    ensures r.Ok? ==> forall row :: row in r.value.rows <==> row in data.rows && CellEquals(Get(row, DataFilter.CountryLabel), val)
    ensures r.Ok? ==> IsSubsequence(r.value.rows, data.rows)
    ensures r.Ok? ==> |r.value.rows| == Count(data.rows, row => CellEquals(Get(row, DataFilter.CountryLabel), val))
  {
    DataFilter.Where(data, DataFilter.CountryLabel, val)
  }

  /** `data[val]`: the column labelled `val`, one cell per row, or the
      `KeyError` pandas raises for a label the frame does not have. */
  function FilterByYear(data: Frame, val: string): (r: Result<seq<Cell>>)
    ensures r.Err? <==> val !in data.columns
    ensures r.Err? ==> r.error == KeyError(val)
    ensures r.Ok? ==> |r.value| == |data.rows|
    ensures r.Ok? ==> forall i :: 0 <= i < |data.rows| ==> r.value[i] == Get(data.rows[i], val)
  {
    if val !in data.columns then Err(KeyError(val)) else Ok(Column(data, val))
  }

  /** A year's column taken after the continent selection holds exactly the
      year cells of that continent's rows. */
  lemma RegionYearColumn(data: Frame, region: Cell, year: string)
    requires DataFilter.ContinentLabel in data.columns && year in data.columns
    ensures FilterByYear(FilterByRegion(data, region).value, year).Ok?
    ensures forall c :: c in FilterByYear(FilterByRegion(data, region).value, year).value <==>
              exists row :: row in data.rows && CellEquals(Get(row, DataFilter.ContinentLabel), region) && Get(row, year) == c
  {
    var sel := FilterByRegion(data, region).value;
    var col := FilterByYear(sel, year).value;
    forall c ensures c in col <==>
        exists row :: row in data.rows && CellEquals(Get(row, DataFilter.ContinentLabel), region) && Get(row, year) == c
    {
      if c in col {
        var i :| 0 <= i < |col| && col[i] == c;
        assert sel.rows[i] in sel.rows;
      }
      if exists row :: row in data.rows && CellEquals(Get(row, DataFilter.ContinentLabel), region) && Get(row, year) == c {
        var row :| row in data.rows && CellEquals(Get(row, DataFilter.ContinentLabel), region) && Get(row, year) == c;
        assert row in sel.rows;
        var i :| 0 <= i < |sel.rows| && sel.rows[i] == row;
        assert col[i] == c;
      }
    }
  }
}
