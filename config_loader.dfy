/** The configuration check of the dashboard: the parsed `config.json` must
    name a region, an operation, a year and an output. */
module ConfigLoader {
  import opened Frames

  /** The required keys, in the order they are checked and reported. */
  const CheckKeys: seq<string> := ["region", "operation", "year", "output"]

  /** The required keys the document lacks, in the order of `CheckKeys`. */
  function MissingKeys(data: map<string, Json>): (m: seq<string>)
    ensures forall k :: k in m <==> k in CheckKeys && k !in data
    ensures IsSubsequence(m, CheckKeys)
    ensures m == [] <==> forall k :: k in CheckKeys ==> k in data
  {
    Filter(CheckKeys, k => k !in data)
  }

  /** `get_config_options`: a copy of the whole document, extra keys
      included, when every required key is there; nothing when the file is
      absent, is not JSON or lacks a key. */
  function GetConfigOptions(p: Parsed): (r: Option<map<string, Json>>)
    ensures r.Some? <==> p.Document? && forall k :: k in CheckKeys ==> k in p.data
    ensures r.Some? ==> r.value == p.data
  {
    match p
    case NoFile => None
    case BadJson => None
    case Document(data) => if MissingKeys(data) != [] then None else Some(map k | k in data :: data[k])
  }

  /** An empty document is reported as lacking every key, in order. */
  lemma EmptyDocumentMissesAll()
    ensures MissingKeys(map[]) == CheckKeys
  {
    var empty: map<string, Json> := map[];
    FilterKeepsAll(CheckKeys, k => k !in empty);
  }
}
