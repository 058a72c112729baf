/** The older configuration reader: the four settings as a tuple. */
module ConfigParser {
  import opened Frames
  import ConfigLoader

  /** `(region, year, operation, output)`, the tuple's order. */
  datatype Options = Options(region: Json, year: Json, operation: Json, output: Json)

  /** The keys in the order the tuple is built. */
  const TupleKeys: seq<string> := ["region", "year", "operation", "output"]

  /** `get_config_options`: a decode error or a missing key (`KeyError`) is
      reported and gives nothing; a missing file is not caught and reaches
      the caller as `FileNotFoundError`. */
  function GetConfigOptions(p: Parsed): (r: Result<Option<Options>>)
    ensures r.Err? <==> p.NoFile?
    ensures r.Err? ==> r.error == FileNotFoundError
    ensures r == Ok(None) <==> p.BadJson? || (p.Document? && exists k :: k in TupleKeys && k !in p.data)
    ensures r.Ok? && r.value.Some? ==>
              && r.value.value.region == p.data["region"]
              && r.value.value.year == p.data["year"]
              && r.value.value.operation == p.data["operation"]
              && r.value.value.output == p.data["output"]
  {
    match p
    case NoFile => Err(FileNotFoundError)
    case BadJson => Ok(None)
    case Document(data) =>
      if "region" in data && "year" in data && "operation" in data && "output" in data then
        Ok(Some(Options(data["region"], data["year"], data["operation"], data["output"])))
      else Ok(None)
  }

  /** The two readers accept the same documents and read the same settings;
      they differ only on a missing file, which one reports as nothing and
      the other raises. */
  lemma ReadersAgree(p: Parsed)
    ensures p.NoFile? ==> ConfigLoader.GetConfigOptions(p).None? && GetConfigOptions(p).Err?
    ensures !p.NoFile? ==> (ConfigLoader.GetConfigOptions(p).Some? <==> GetConfigOptions(p).Ok? && GetConfigOptions(p).value.Some?)
    ensures ConfigLoader.GetConfigOptions(p).Some? ==>
              var m := ConfigLoader.GetConfigOptions(p).value;
              GetConfigOptions(p) == Ok(Some(Options(m["region"], m["year"], m["operation"], m["output"])))
  {
    assert multiset(TupleKeys) == multiset(ConfigLoader.CheckKeys);
    assert forall k :: k in TupleKeys <==> k in ConfigLoader.CheckKeys;
  }
}
