/** `ResourceTableOperation`: rewriting config values and entries of the resource table. */
module ResourceTableOperation {
  import opened Wrappers
  import opened Seqs
  import opened BundleModel

  /**
   * `replaceEntryPath(configValue, path)`: the same configuration with a file item at
   * `path` (an item that was not a file becomes one, as setting the file of the item does).
   */
  function ReplaceEntryPath(cv: ConfigValue, path: string): (r: ConfigValue)
    ensures r.config == cv.config && r.item.File? && r.item.path == path
  {
    ConfigValue(cv.config, File(path))
  }

  /** `updateEntryConfigValueList(entry, list)`: the entry with exactly `list` as its config values. */
  function UpdateEntryConfigValueList(e: Entry, configs: seq<ConfigValue>): (r: Entry)
    ensures r.id == e.id && r.name == e.name && r.configs == configs
  {
    e.(configs := configs)
  }

  /** `updateEntryName(entry, name)`: the entry renamed, id and values kept. */
  function UpdateEntryName(e: Entry, name: string): (r: Entry)
    ensures r.id == e.id && r.configs == e.configs && r.name == name
  {
    e.(name := name)
  }

  /**
   * `checkConfiguration(entry)`: rejects an entry listing the same config value twice;
   * the scan keeps the values seen so far, as the source's set does.
   */
  method CheckConfiguration(e: Entry) returns (r: Result<()>)
    ensures r.Ok? <==> Distinct(e.configs)
    ensures r.Err? ==> r.error == IllegalArgument
  {
    if |e.configs| == 0 {
      return Ok(());
    }
    var seen: set<ConfigValue> := {};
    var i := 0;
    while i < |e.configs|
      invariant 0 <= i <= |e.configs|
      invariant seen == Elems(e.configs[..i])
      invariant Distinct(e.configs[..i])
    {
      var cv := e.configs[i];
      if cv in seen {
        var k :| 0 <= k < i && e.configs[..i][k] == cv;
        assert e.configs[k] == e.configs[i];
        return Err(IllegalArgument);
      }
      DistinctSnoc(e.configs[..i], cv);
      assert e.configs[..i + 1] == e.configs[..i] + [cv];
      seen := seen + {cv};
      i := i + 1;
    }
    assert e.configs[..i] == e.configs;
    return Ok(());
  }

  /** Appending an element not yet present keeps a sequence duplicate-free. */
  lemma DistinctSnoc<T>(s: seq<T>, x: T)
    requires Distinct(s) && x !in s
    ensures Distinct(s + [x])
  {
  }
}
